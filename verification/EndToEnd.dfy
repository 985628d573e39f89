/** Encoder, lossy channel and decoder together. */
module EndToEnd {
  import opened GF256
  import opened ErasureCode
  import opened Blocks
  import opened Groups
  import opened DecoderRun
  import opened LossyRun
  import opened EncoderRun
  import EncoderModel
  import DecoderModel

  // ---------- any subsequence of the encoder's output ----------

  /** The packets that arrive when those at the positions ks are not lost. */
  function Select(ps: seq<FECBlock>, ks: seq<nat>): (r: seq<FECBlock>)
    requires Ascending(ks, |ps|)
    ensures |r| == |ks|
  {
    seq(|ks|, i requires 0 <= i < |ks| => ps[ks[i]])
  }

  /** How many of the positions lie below n. */
  function CountBelow(ks: seq<nat>, n: nat): (c: nat)
    ensures c <= |ks|
  {
    if ks == [] then 0
    else if ks[|ks| - 1] < n then |ks|
    else CountBelow(ks[..|ks| - 1], n)
  }

  lemma {:induction false} CountBelowMeans(ks: seq<nat>, n: nat, m: nat)
    requires Ascending(ks, m)
    ensures forall i :: 0 <= i < |ks| ==> (ks[i] < n <==> i < CountBelow(ks, n))
  {
    if ks != [] && ks[|ks| - 1] >= n {
      assert Ascending(ks[..|ks| - 1], m);
      CountBelowMeans(ks[..|ks| - 1], n, m);
      assert forall i :: 0 <= i < |ks| - 1 ==> ks[i] == ks[..|ks| - 1][i];
    }
  }

  predicate AllWellFormed(groups: seq<Group>)
  {
    forall k :: 0 <= k < |groups| ==> Groups.WellFormed(groups[k])
  }

  /** The arrivals sorted by group: positions within each group. */
  ghost function Split(groups: seq<Group>, ks: seq<nat>): (run: seq<Burst>)
    requires AllWellFormed(groups)
    requires Ascending(ks, |AllPackets(groups)|)
    ensures |run| == |groups|
  {
    if groups == [] then []
    else
      var n := |groups| - 1;
      var offset := |AllPackets(groups[..n])|;
      var c := CountBelow(ks, offset);
      CountBelowMeans(ks, offset, |AllPackets(groups)|);
      Split(groups[..n], ks[..c]) +
        [Burst(groups[n], seq(|ks| - c, i requires 0 <= i < |ks| - c => ks[c + i] - offset))]
  }

  lemma SplitLast(groups: seq<Group>, ks: seq<nat>)
    requires AllWellFormed(groups) && Ascending(ks, |AllPackets(groups)|) && groups != []
    ensures var n := |groups| - 1;
      var offset := |AllPackets(groups[..n])|;
      var c, run := CountBelow(ks, offset), Split(groups, ks);
      && Ascending(ks[..c], offset)
      && run[..n] == Split(groups[..n], ks[..c])
      && run[n].group == groups[n] && |run[n].arrived| == |ks| - c
      && forall i :: 0 <= i < |ks| - c ==> run[n].arrived[i] == ks[c + i] - offset
  {
    hide Packet, Packets;
    var offset := |AllPackets(groups[..|groups| - 1])|;
    CountBelowMeans(ks, offset, |AllPackets(groups)|);
  }

  lemma {:induction false} SplitArrivals(groups: seq<Group>, ks: seq<nat>)
    requires AllWellFormed(groups) && Ascending(ks, |AllPackets(groups)|)
    ensures forall k :: 0 <= k < |groups| ==>
      Split(groups, ks)[k].group == groups[k] && Survivors(groups[k], Split(groups, ks)[k].arrived)
    ensures Arrivals(Split(groups, ks)) == Select(AllPackets(groups), ks)
  {
    hide Packet, Packets, Select, Received, Survivors, Split, CountBelow;
    if groups == [] {
      AscendingSize(ks, 0);
    } else {
      var n := |groups| - 1;
      var before, run := AllPackets(groups[..n]), Split(groups, ks);
      var c := CountBelow(ks, |before|);
      SplitLast(groups, ks);
      CountBelowMeans(ks, |before|, |AllPackets(groups)|);
      SplitArrivals(groups[..n], ks[..c]);
      SelectSplit(before, groups[n], ks, c, run[n].arrived);
      forall k | 0 <= k < n
        ensures run[k].group == groups[k] && Survivors(groups[k], run[k].arrived)
      {
        assert run[k] == run[..n][k];
      }
    }
  }

  lemma SelectSplit(before: seq<FECBlock>, g: Group, ks: seq<nat>, c: nat, arrived: seq<nat>)
    requires Groups.WellFormed(g) && Ascending(ks, |before| + |Packets(g)|) && c <= |ks|
    requires forall i :: 0 <= i < |ks| ==> (ks[i] < |before| <==> i < c)
    requires |arrived| == |ks| - c && forall i :: 0 <= i < |arrived| ==> arrived[i] == ks[c + i] - |before|
    ensures Survivors(g, arrived) && Ascending(ks[..c], |before|)
    ensures Select(before + Packets(g), ks) == Select(before, ks[..c]) + Received(g, arrived)
  {
    hide Packet;
    forall i, j | 0 <= i < j < |arrived|
      ensures arrived[i] < arrived[j]
    {
      assert ks[c + i] < ks[c + j];
    }
    forall i | 0 <= i < |arrived|
      ensures arrived[i] < |Packets(g)|
    {
      assert ks[c + i] < |before| + |Packets(g)|;
    }
  }

  // ---------- telling groups apart ----------

  /** The last group of which something arrived, -1 if there is none. */
  function LastArrival(run: seq<Burst>): (k: int)
    ensures -1 <= k < |run|
    ensures k >= 0 ==> LastSeq(run) == run[k].group.seqNum
    ensures k == -1 ==> LastSeq(run) == 0
  {
    if run == [] then -1
    else if run[|run| - 1].arrived != [] then |run| - 1
    else LastArrival(run[..|run| - 1])
  }

  /** Two groups of which something arrives, with none between them, are fewer than 255 apart. */
  predicate GapsBounded(run: seq<Burst>)
  {
    forall k :: 0 <= k < |run| && run[k].arrived != [] && LastArrival(run[..k]) >= 0 ==> k - LastArrival(run[..k]) < 255
  }

  /** Of every group of which something arrives, a data block arrives, or it has only one. */
  predicate DataArrives(run: seq<Burst>)
  {
    forall k :: 0 <= k < |run| && run[k].arrived != [] ==> Heard(run[k])
  }

  lemma NumberedDistinguishable(run: seq<Burst>, start: gf)
    requires start != 0 && GapsBounded(run) && DataArrives(run)
    requires forall k :: 0 <= k < |run| ==> Groups.WellFormed(run[k].group) && Survivors(run[k].group, run[k].arrived)
    requires forall k :: 0 <= k < |run| ==> run[k].group.seqNum == SeqAt(start, k)
    ensures Distinguishable(run)
  {
    forall k | 0 <= k < |run| && run[k].arrived != []
      ensures run[k].group.seqNum != LastSeq(run[..k])
    {
      var j := LastArrival(run[..k]);
      if j >= 0 {
        assert run[..k][j] == run[j];
        SeqDistinct(start, j, k);
      }
    }
  }

  // ---------- the whole link ----------

  /** A new encoder of a link with FEC and payloads that fit its blocks. */
  predicate FecLink(s: EncoderModel.State, ops: seq<Op>)
  {
    && EncoderModel.Valid(s) && !EncoderModel.Passing(s)
    && s.ins == [] && s.out == [] && s.seqNum != 0
    && forall k :: 0 <= k < |ops| ==> EncoderRun.Sendable(ops[k], s.maxBlockSize)
  }

  function PlanOf(s: EncoderModel.State, ops: seq<Op>): Plan
  {
    PlanRun(s.seqNum, ops, s.numBlocks, s.numFecBlocks)
  }

  /** What arrives of the encoder's output, group by group. */
  ghost function ArrivedRun(s: EncoderModel.State, ops: seq<Op>, ks: seq<nat>): seq<Burst>
    requires FecLink(s, ops) && Ascending(ks, |EncoderRun.Run(s, ops).out|)
  {
    RunFollows(s, ops);
    Split(PlanOf(s, ops).groups, ks)
  }

  /** Whatever subsequence of the encoder's packets arrives, as long as groups can be told apart and
      every group that is not lost entirely brings a data block or has only one, the decoder takes all of
      it and delivers, group by group, exactly what `Outcome` says. */
  lemma LinkDelivers(s: EncoderModel.State, ops: seq<Op>, ks: seq<nat>)
    requires FecLink(s, ops) && Ascending(ks, |EncoderRun.Run(s, ops).out|)
    requires GapsBounded(ArrivedRun(s, ops, ks)) && DataArrives(ArrivedRun(s, ops, ks))
    ensures var sent := Select(EncoderRun.Run(s, ops).out, ks); var run := ArrivedRun(s, ops, ks);
      && (forall k :: 0 <= k < |run| ==> Survivors(run[k].group, run[k].arrived))
      && AcceptsAll(DecoderModel.INITIAL, sent)
      && var t := Feed(DecoderModel.INITIAL, sent);
         (forall i :: 0 <= i < |t.out| ==> t.out[i].WellFormed()) && Payloads(t.out) == DeliveredAll(run)
  {
    hide Feed, AcceptsAll, Split, EncoderRun.Run, PlanRun, Packet, GapsBounded, Arrivals, AllPackets;
    RunFollows(s, ops);
    var groups, run := PlanOf(s, ops).groups, ArrivedRun(s, ops, ks);
    PlanNumbers(s.seqNum, ops, s.numBlocks, s.numFecBlocks);
    SplitArrivals(groups, ks);
    NumberedDistinguishable(run, s.seqNum);
    RunDelivers(run);
  }
}
