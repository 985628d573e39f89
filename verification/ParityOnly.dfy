/** What a group does to the decoder when none of its data blocks arrives. */
module ParityOnly {
  import opened Groups
  import opened DecoderModel
  import opened DecoderRun
  import opened LoneParity
  import opened LossyRun
  import opened Guarantees
  import opened NextGroup

  /** After the survivors of a group the decoder is ready for the next group exactly when a data
      block arrived, or the group has only one. */
  lemma CleanExactlyWhen(s: State, g: Group, idx: seq<nat>)
    requires Groups.WellFormed(g) && Survivors(g, idx) && idx != []
    requires Clean(s) && s.prevSeq != g.seqNum
    ensures AcceptsAll(s, Received(g, idx))
    ensures Clean(Feed(s, Received(g, idx))) <==> idx[0] < |g.payloads| || |g.payloads| == 1
  {
    hide Packet, Step, Accepts, Feed, AcceptsAll, Delivered;
    if idx[0] < |g.payloads| {
      GroupDelivers(s, g, idx);
    } else {
      ParityRun(s, g, idx, |idx|);
      assert Received(g, idx)[..|idx|] == Received(g, idx);
    }
  }

  /** Without a data block nothing of the group comes out, however many parity blocks arrive. */
  lemma ParityAloneDeliversNothing(s: State, g: Group, idx: seq<nat>)
    requires Groups.WellFormed(g) && Survivors(g, idx) && idx != [] && idx[0] >= |g.payloads|
    requires Clean(s) && s.prevSeq != g.seqNum
    ensures AcceptsAll(s, Received(g, idx)) && Feed(s, Received(g, idx)).out == s.out
  {
    hide Packet, Step, Accepts, Feed, AcceptsAll;
    ParityRun(s, g, idx, |idx|);
    assert Received(g, idx)[..|idx|] == Received(g, idx);
  }

  lemma PacketsSized(g: Group, idx: seq<nat>)
    requires Groups.WellFormed(g) && Survivors(g, idx)
    ensures var r := Received(g, idx);
      forall i :: 0 <= i < |r| ==> r[i].WellFormed() && (r[i].IsData() ==> r[i].BlockSize() != 0)
  {
    hide Packet;
    var r := Received(g, idx);
    forall i | 0 <= i < |r|
      ensures r[i].WellFormed() && (r[i].IsData() ==> r[i].BlockSize() != 0)
    {
      PacketHeader(g, idx[i]);
      if idx[i] < |g.payloads| {
        DataPacket(g, idx[i]);
      }
    }
  }

  /** What arrives of one group decides about the next one that is heard: it is delivered as it should,
      whatever of it arrives, exactly when its number is another one and a data block of the first group
      arrived or one of the two has a single data block. */
  lemma NextGroupExactlyWhen(s: State, g: Group, idx: seq<nat>, h: Group)
    requires Groups.WellFormed(g) && Survivors(g, idx) && idx != [] && Groups.WellFormed(h)
    requires Clean(s) && Steady(s) && s.prevSeq != g.seqNum
    ensures AcceptsAll(s, Received(g, idx))
    ensures AlwaysRight(Feed(s, Received(g, idx)), h)
       <==> h.seqNum != g.seqNum && (idx[0] < |g.payloads| || |g.payloads| == 1 || |h.payloads| == 1)
  {
    hide Packet, Step, Accepts, Feed, AcceptsAll, Delivered, AlwaysRight, Steady, Clean;
    CleanExactlyWhen(s, g, idx);
    var t := Feed(s, Received(g, idx));
    PacketsSized(g, idx);
    RunKeepsSteady(s, Received(g, idx));
    assert t.prevSeq == g.seqNum by { NumberKept(s, g, idx); }
    DeliveredExactlyWhen(t, h);
  }

  lemma NumberKept(s: State, g: Group, idx: seq<nat>)
    requires Groups.WellFormed(g) && Survivors(g, idx) && idx != []
    requires Clean(s) && s.prevSeq != g.seqNum
    ensures AcceptsAll(s, Received(g, idx)) && Feed(s, Received(g, idx)).prevSeq == g.seqNum
  {
    hide Packet, Step, Accepts, Feed, AcceptsAll, Delivered;
    if idx[0] < |g.payloads| {
      GroupDelivers(s, g, idx);
    } else {
      ParityRun(s, g, idx, |idx|);
      assert Received(g, idx)[..|idx|] == Received(g, idx);
    }
  }

  /** Two groups; of the first only a parity block arrives. The second could be repaired from what
      arrives of it alone, yet nothing at all comes out. */
  lemma DataMustArrive(g: Group, h: Group, k: nat)
    requires Groups.WellFormed(g) && |g.payloads| >= 2 && g.seqNum != INITIAL.prevSeq
    requires Groups.WellFormed(h) && h.seqNum != g.seqNum
    requires 0 < k < |h.payloads| && |h.payloads[0]| <= |h.payloads[k]|
    ensures Survivors(g, [|g.payloads|])
    ensures var idx := AllButFirst(|h.payloads|);
      && Survivors(h, idx) && Delivered(h, idx) == Exactly(h.payloads)
      && var ps := Received(g, [|g.payloads|]) + Received(h, idx);
         AcceptsAll(INITIAL, ps) && Feed(INITIAL, ps).out == []
  {
    hide Packet, Step, Accepts, Feed, AcceptsAll, Delivered;
    var idx := [|g.payloads|];
    assert Received(g, idx)[..1] == Received(g, idx);
    ParityRun(INITIAL, g, idx, 1);
    var s := Feed(INITIAL, Received(g, idx));
    LeftoverSpoilsRepair(s, h);
    FeedConcat(INITIAL, Received(g, idx), Received(h, AllButFirst(|h.payloads|)));
    FirstRestored(h, k);
  }

  /** A payload that is at least as long and arrives makes the first one fit. */
  lemma FirstRestored(h: Group, k: nat)
    requires Groups.WellFormed(h) && 0 < k < |h.payloads| && |h.payloads[0]| <= |h.payloads[k]|
    ensures var idx := AllButFirst(|h.payloads|);
      Survivors(h, idx) && Delivered(h, idx) == Exactly(h.payloads)
  {
    hide Delivered, Learned, Delivery;
    var idx := AllButFirst(|h.payloads|);
    LearnedOthers(h, k);
    forall i | 0 <= i < |h.payloads|
      ensures Restorable(h, idx, i)
    {
      assert i > 0 ==> idx[i - 1] == i;
    }
    CompleteExactlyWhen(h, idx);
  }

  lemma LearnedOthers(h: Group, k: nat)
    requires 0 < k < |h.payloads| && 0 < h.nFec
    ensures var idx := AllButFirst(|h.payloads|);
      Survivors(h, idx) && |h.payloads[k]| + 2 <= Learned(h, idx, |idx|)
  {
    hide LargestOf, DataCount;
    var n, idx := |h.payloads|, AllButFirst(|h.payloads|);
    CountStep(h, idx, n - 1);
    CountStep(h, idx, n - 2);
    assert idx[..n - 1][k - 1] == k;
  }
}
