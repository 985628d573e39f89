/** The survivors of a group of which no data block arrives. */
module LoneParity {
  import opened Groups
  import opened DecoderModel
  import opened DecoderRun

  /** The first parity block is kept with no group around it; the others are ignored. */
  ghost predicate Leftover(t: State, s: State, g: Group, idx: seq<nat>)
  {
    && Groups.WellFormed(g) && Survivors(g, idx) && idx != []
    && t.blockSize == 0 && t.blocks == [] && t.out == s.out && t.prevSeq == g.seqNum
    && t.fecBlocks == if |g.payloads| == 1 then [] else [Packet(g, idx[0])]
  }

  lemma FirstParity(s: State, g: Group, idx: seq<nat>)
    requires Groups.WellFormed(g) && Survivors(g, idx) && idx != [] && idx[0] >= |g.payloads|
    requires Clean(s) && s.prevSeq != g.seqNum
    ensures Accepts(s, Packet(g, idx[0])) && Leftover(Step(s, Packet(g, idx[0])), s, g, idx)
  {
    hide Packet, Decoded, Decodable;
    var p := Packet(g, idx[0]);
    PacketHeader(g, idx[0]);
    var q := Prepared(Counted(s, p), p);
    assert q.blocks == [] && q.fecBlocks == [] && q.out == s.out && q.blockSize == 0;
  }

  lemma {:induction false} ParityRun(s: State, g: Group, idx: seq<nat>, j: nat)
    requires Groups.WellFormed(g) && Survivors(g, idx) && 0 < j <= |idx| && idx[0] >= |g.payloads|
    requires Clean(s) && s.prevSeq != g.seqNum
    ensures AcceptsAll(s, Received(g, idx)[..j]) && Leftover(Feed(s, Received(g, idx)[..j]), s, g, idx)
  {
    hide Packet, Step, Accepts, Leftover;
    var r := Received(g, idx);
    assert r[..j][..j - 1] == r[..j - 1];
    assert r[..j][j - 1] == Packet(g, idx[j - 1]);
    if j == 1 {
      assert AcceptsAll(s, r[..0]) && Feed(s, r[..0]) == s;
      FirstParity(s, g, idx);
    } else {
      ParityRun(s, g, idx, j - 1);
      NextParityIgnored(Feed(s, r[..j - 1]), s, g, idx, idx[j - 1]);
    }
  }

  lemma NextParityIgnored(t: State, s: State, g: Group, idx: seq<nat>, k: nat)
    requires Leftover(t, s, g, idx) && k < |g.payloads| + g.nFec
    ensures Accepts(t, Packet(g, k)) && Leftover(Step(t, Packet(g, k)), s, g, idx)
  {
    hide Packet, Decoded, Decodable;
    PacketHeader(g, k);
  }
}
