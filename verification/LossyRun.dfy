/** The decoder over a channel that loses packets but keeps their order. */
module LossyRun {
  import opened GF256
  import opened LinearAlgebra
  import opened Wrappers
  import opened Blocks
  import opened Groups
  import opened DecoderModel
  import opened DecoderRun
  import opened LoneParity
  import opened RepairStep

  // ---------- one group ----------

  /** The survivors of one group, one after another. */
  lemma {:induction false} GroupRun(s: State, g: Group, idx: seq<nat>, j: nat)
    requires Groups.WellFormed(g) && Survivors(g, idx) && 0 < j <= |idx| && idx[0] < |g.payloads|
    requires Clean(s) && s.prevSeq != g.seqNum
    ensures AcceptsAll(s, Received(g, idx)[..j])
    ensures j < |g.payloads| ==> Collecting(Feed(s, Received(g, idx)[..j]), s, g, idx, j)
    ensures j >= |g.payloads| ==> GroupDone(Feed(s, Received(g, idx)[..j]), s, g, idx)
  {
    hide Packet, Step, Accepts, Collecting, GroupDone;
    var r, m := Received(g, idx), |g.payloads|;
    assert r[..j][..j - 1] == r[..j - 1];
    assert r[..j][j - 1] == Packet(g, idx[j - 1]);
    if j == 1 {
      assert AcceptsAll(s, r[..0]) && Feed(s, r[..0]) == s;
      StoreFirst(s, g, idx);
      if m == 1 {
        StoreOnly(s, g, idx);
      }
    } else {
      GroupRun(s, g, idx, j - 1);
      var t := Feed(s, r[..j - 1]);
      if j - 1 >= m {
        AfterComplete(t, s, g, idx, idx[j - 1]);
      } else {
        NextSurvivor(t, s, g, idx, j - 1);
      }
    }
  }

  lemma NextSurvivor(t: State, s: State, g: Group, idx: seq<nat>, j: nat)
    requires Collecting(t, s, g, idx, j) && j + 1 <= |idx|
    ensures Accepts(t, Packet(g, idx[j]))
    ensures j + 1 < |g.payloads| ==> Collecting(Step(t, Packet(g, idx[j])), s, g, idx, j + 1)
    ensures j + 1 == |g.payloads| ==> GroupDone(Step(t, Packet(g, idx[j])), s, g, idx)
  {
    hide Packet, Step, Accepts, GroupDone;
    if idx[j] < |g.payloads| {
      StoreNextData(t, s, g, idx, j);
      if j + 1 == |g.payloads| {
        StoreLastData(t, s, g, idx, j);
      }
    } else if j + 1 < |g.payloads| {
      StoreNextParity(t, s, g, idx, j);
    } else {
      StoreLastParity(t, s, g, idx, j);
    }
  }

  /** Everything that the survivors of a group make the decoder put out. */
  lemma GroupDelivers(s: State, g: Group, idx: seq<nat>)
    requires Groups.WellFormed(g) && Survivors(g, idx) && idx != [] && idx[0] < |g.payloads|
    requires Clean(s) && s.prevSeq != g.seqNum
    ensures AcceptsAll(s, Received(g, idx))
    ensures var t := Feed(s, Received(g, idx));
      && Clean(t) && t.prevSeq == g.seqNum && s.out <= t.out
      && (forall i :: |s.out| <= i < |t.out| ==> t.out[i].WellFormed())
      && Payloads(t.out[|s.out|..]) == Delivered(g, idx)
  {
    hide Packet, Step, Accepts, Feed, AcceptsAll, LargestOf, Deliveries;
    var n := |idx|;
    assert Received(g, idx)[..n] == Received(g, idx);
    GroupRun(s, g, idx, n);
    var t := Feed(s, Received(g, idx));
    if n < |g.payloads| {
      var l := Leading(idx, DataCount(g, idx, n));
      LearnedPositive(g, idx, n);
      PacketPayloads(g, l);
      assert t.out[|s.out|..] == Packets(g)[..l];
    }
  }

  // ---------- one group after another ----------

  /** A group as sent and the indices of its packets that arrive. */
  datatype Burst = Burst(group: Group, arrived: seq<nat>)

  ghost function Arrivals(run: seq<Burst>): seq<FECBlock>
    requires forall k :: 0 <= k < |run| ==> Groups.WellFormed(run[k].group) && Survivors(run[k].group, run[k].arrived)
  {
    if run == [] then [] else Arrivals(run[..|run| - 1]) + Received(run[|run| - 1].group, run[|run| - 1].arrived)
  }

  /** The sequence number of the last group of which something arrived, 0 if there is none. */
  function LastSeq(run: seq<Burst>): gf
  {
    if run == [] then 0
    else if run[|run| - 1].arrived != [] then run[|run| - 1].group.seqNum
    else LastSeq(run[..|run| - 1])
  }

  /** A data block arrives, or the group has no more than one. */
  predicate Heard(b: Burst)
    requires b.arrived != []
  {
    b.arrived[0] < |b.group.payloads| || |b.group.payloads| == 1
  }

  /** Of every group that is not lost entirely a data block arrives, if it has more than one, and the
      sequence number tells it from the group that arrived before it. */
  predicate Distinguishable(run: seq<Burst>)
  {
    && (forall k :: 0 <= k < |run| ==> Groups.WellFormed(run[k].group) && Survivors(run[k].group, run[k].arrived))
    && (forall k :: 0 <= k < |run| && run[k].arrived != [] ==>
          Heard(run[k]) && run[k].group.seqNum != LastSeq(run[..k]))
  }

  /** What the receiver gets of a group: nothing without any data block. */
  function Outcome(b: Burst): seq<Option<vec>>
    requires Survivors(b.group, b.arrived)
  {
    if b.arrived == [] || b.arrived[0] >= |b.group.payloads| then [] else Delivered(b.group, b.arrived)
  }

  /** What the receiver gets: group by group. */
  function DeliveredAll(run: seq<Burst>): seq<Option<vec>>
    requires forall k :: 0 <= k < |run| ==> Survivors(run[k].group, run[k].arrived)
  {
    if run == [] then []
    else
      DeliveredAll(run[..|run| - 1]) + Outcome(run[|run| - 1])
  }

  lemma BurstDelivers(s: State, b: Burst)
    requires Groups.WellFormed(b.group) && Survivors(b.group, b.arrived) && b.arrived != [] && Heard(b)
    requires Clean(s) && s.prevSeq != b.group.seqNum
    ensures AcceptsAll(s, Received(b.group, b.arrived))
    ensures var t := Feed(s, Received(b.group, b.arrived));
      && Clean(t) && t.prevSeq == b.group.seqNum && s.out <= t.out
      && (forall i :: |s.out| <= i < |t.out| ==> t.out[i].WellFormed())
      && Payloads(t.out[|s.out|..]) == Outcome(b)
  {
    hide Packet, Step, Accepts, Feed, AcceptsAll, Delivered;
    if b.arrived[0] < |b.group.payloads| {
      GroupDelivers(s, b.group, b.arrived);
    } else {
      ParityRun(s, b.group, b.arrived, |b.arrived|);
      assert Received(b.group, b.arrived)[..|b.arrived|] == Received(b.group, b.arrived);
      assert Payloads([]) == [];
    }
  }

  lemma {:induction false} FeedConcat(s: State, a: seq<FECBlock>, b: seq<FECBlock>)
    requires AcceptsAll(s, a) && AcceptsAll(Feed(s, a), b)
    ensures AcceptsAll(s, a + b) && Feed(s, a + b) == Feed(Feed(s, a), b)
    decreases |b|
  {
    hide Step, Accepts;
    if b == [] {
      assert a + b == a;
    } else {
      var n := |b| - 1;
      FeedConcat(s, a, b[..n]);
      assert (a + b)[..|a + b| - 1] == a + b[..n];
    }
  }

  lemma DistinguishablePrefix(run: seq<Burst>)
    requires Distinguishable(run) && run != []
    ensures Distinguishable(run[..|run| - 1])
  {
    var r := run[..|run| - 1];
    forall k | 0 <= k < |r|
      ensures r[..k] == run[..k]
    {
    }
  }

  /** The whole run: the decoder takes every packet and puts out exactly the deliveries. */
  lemma {:induction false} RunDelivers(run: seq<Burst>)
    requires Distinguishable(run)
    ensures AcceptsAll(INITIAL, Arrivals(run))
    ensures var t := Feed(INITIAL, Arrivals(run));
      && Clean(t) && t.prevSeq == LastSeq(run)
      && (forall i :: 0 <= i < |t.out| ==> t.out[i].WellFormed())
      && Payloads(t.out) == DeliveredAll(run)
  {
    hide Step, Accepts, Delivered, Packet;
    if run != [] {
      var n := |run| - 1;
      var b := run[n];
      DistinguishablePrefix(run);
      RunDelivers(run[..n]);
      var s := Feed(INITIAL, Arrivals(run[..n]));
      if b.arrived == [] {
        assert Arrivals(run) == Arrivals(run[..n]);
      } else {
        BurstDelivers(s, b);
        var r := Received(b.group, b.arrived);
        FeedConcat(INITIAL, Arrivals(run[..n]), r);
        PayloadsConcat(s.out, Feed(s, r).out);
      }
    }
  }

  lemma PayloadsConcat(a: seq<FECBlock>, b: seq<FECBlock>)
    requires a <= b && (forall i :: 0 <= i < |a| ==> a[i].WellFormed())
    requires forall i :: |a| <= i < |b| ==> b[i].WellFormed()
    ensures forall i :: 0 <= i < |b| ==> b[i].WellFormed()
    ensures Payloads(b) == Payloads(a) + Payloads(b[|a|..])
  {
    assert forall i :: 0 <= i < |a| ==> b[i] == a[i];
  }
}
