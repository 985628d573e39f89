/** Why two groups that follow each other at the receiver must be fewer than 255 groups apart. */
module SequenceWrap {
  import opened GF256
  import opened Groups
  import opened DecoderModel
  import opened DecoderRun
  import opened LossyRun
  import EncoderRun

  /** Sequence numbers repeat exactly every 255 groups. */
  lemma RepeatsExactlyWhen(start: gf, j: nat, k: nat)
    requires start != 0 && j <= k
    ensures EncoderRun.SeqAt(start, j) == EncoderRun.SeqAt(start, k) <==> (k - j) % 255 == 0
  {
    hide EncoderRun.SeqAt;
    EncoderRun.SeqCycle(start, j);
    EncoderRun.SeqCycle(start, k);
    SameResidue(start - 1 + j, (k - j) / 255, (k - j) % 255);
  }

  lemma {:induction false} SameResidue(a: nat, q: nat, e: nat)
    requires e < 255
    ensures (a + 255 * q + e) % 255 == a % 255 <==> e == 0
  {
    if q > 0 {
      SameResidue(a, q - 1, e);
      assert (a + 255 * q + e) % 255 == (a + 255 * (q - 1) + e) % 255;
    } else if e > 0 {
      EncoderRun.ResiduesDiffer(a, e);
    }
  }

  /** Between groups, the decoder takes the packets of a group with the last number for late packets
      of the last group. */
  lemma {:induction false} IgnoredRun(s: State, g: Group, idx: seq<nat>, j: nat)
    requires Groups.WellFormed(g) && Survivors(g, idx) && j <= |idx|
    requires s.blockSize == 0 && s.prevSeq == g.seqNum
    ensures AcceptsAll(s, Received(g, idx)[..j])
    ensures var t := Feed(s, Received(g, idx)[..j]); t.out == s.out && t.blockSize == 0 && t.prevSeq == g.seqNum
  {
    hide Packet, Step, Accepts;
    var r := Received(g, idx);
    if j > 0 {
      assert r[..j][..j - 1] == r[..j - 1];
      assert r[..j][j - 1] == Packet(g, idx[j - 1]);
      IgnoredRun(s, g, idx, j - 1);
      IgnoredStep(Feed(s, r[..j - 1]), g, idx[j - 1]);
    }
  }

  lemma IgnoredStep(s: State, g: Group, k: nat)
    requires Groups.WellFormed(g) && k < |g.payloads| + g.nFec
    requires s.blockSize == 0 && s.prevSeq == g.seqNum
    ensures Accepts(s, Packet(g, k))
    ensures var t := Step(s, Packet(g, k)); t.out == s.out && t.blockSize == 0 && t.prevSeq == g.seqNum
  {
    hide Packet, Decoded, Decodable;
    PacketHeader(g, k);
  }

  /** Something of a group comes out unless its first block and too many others are lost. */
  lemma NothingDelivered(g: Group, idx: seq<nat>)
    requires Groups.WellFormed(g) && Survivors(g, idx) && idx != [] && idx[0] < |g.payloads|
    ensures Delivered(g, idx) == [] <==> |idx| < |g.payloads| && idx[0] != 0
  {
    hide LargestOf;
    var n := DataCount(g, idx, |idx|);
    LeadingMeans(g, idx, n);
    LearnedPositive(g, idx, |idx|);
    if |idx| >= |g.payloads| {
      SomeDelivery(g, idx, 0);
    }
  }

  lemma {:induction false} SomeDelivery(g: Group, idx: seq<nat>, i: nat)
    requires Survivors(g, idx) && idx != [] && i <= idx[0] < |g.payloads|
    ensures Deliveries(g, idx, i) != []
    decreases idx[0] - i
  {
    hide Learned;
    if i < idx[0] {
      SomeDelivery(g, idx, i + 1);
    }
  }

  /** Between groups, and for given survivors, the next group is delivered as it should be exactly when
      its number differs from the last one, or nothing of it could be delivered anyway. */
  lemma BetweenGroupsExactlyWhen(s: State, g: Group, idx: seq<nat>)
    requires Groups.WellFormed(g) && Survivors(g, idx) && idx != [] && idx[0] < |g.payloads|
    requires Clean(s) && s.blockSize == 0
    ensures AcceptsAll(s, Received(g, idx))
    ensures var t := Feed(s, Received(g, idx));
      && s.out <= t.out && (forall i :: |s.out| <= i < |t.out| ==> t.out[i].WellFormed())
      && (Payloads(t.out[|s.out|..]) == Delivered(g, idx)
          <==> s.prevSeq != g.seqNum || (|idx| < |g.payloads| && idx[0] != 0))
  {
    hide Packet, Step, Accepts, Feed, AcceptsAll, Delivered;
    assert Received(g, idx)[..|idx|] == Received(g, idx);
    NothingDelivered(g, idx);
    if s.prevSeq != g.seqNum {
      GroupDelivers(s, g, idx);
    } else {
      IgnoredRun(s, g, idx, |idx|);
      assert Payloads([]) == [];
    }
  }
}
