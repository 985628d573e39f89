/** Decoding a group with parity blocks that were left over from another one. */
module MixedParity {
  import opened LinearAlgebra
  import opened ErasureCode
  import opened Blocks
  import opened Groups
  import opened DecoderModel
  import opened DecoderRun
  import opened RepairStep
  import opened NextGroup

  // ---------- the situation ----------

  /** How many data blocks of g make the decoder start with the leftovers and one parity block of g. */
  function Needed(g: Group, left: seq<FECBlock>): int
  {
    |g.payloads| - 1 - |left|
  }

  /** The first data blocks of g are stored, the leftovers and parity block r of g. */
  ghost predicate Mixed(t: State, g: Group, left: seq<FECBlock>, r: nat)
  {
    && Groups.WellFormed(g) && r < g.nFec && left != [] && Needed(g, left) > 0
    && t.blocks == Packets(g)[..Needed(g, left)]
    && t.fecBlocks == left + [Packet(g, |g.payloads| + r)]
    && t.blockSize == LargestOf(g.payloads, UpTo(Needed(g, left)))
  }

  lemma MixedFacts(t: State, g: Group, left: seq<FECBlock>, r: nat)
    requires Mixed(t, g, left, r)
    ensures 2 <= t.blockSize <= Size(g)
    ensures Indexed(t.blocks, UpTo(Needed(g, left))) && Ascending(UpTo(Needed(g, left)), |g.payloads|)
    ensures |t.blocks| == Needed(g, left) && forall k :: 0 <= k < |t.blocks| ==> t.blocks[k] == Packet(g, k)
  {
    hide Packet;
    var j := Needed(g, left);
    assert |g.payloads[UpTo(j)[0]]| + 2 <= t.blockSize;
    forall k | 0 <= k < j
      ensures t.blocks[k].block == UpTo(j)[k]
    {
      PacketHeader(g, k);
    }
  }

  lemma MixedMissing(t: State, g: Group, left: seq<FECBlock>, r: nat)
    requires Mixed(t, g, left, r)
    ensures |Missing(t.blocks, |g.payloads|)| == |left| + 1
    ensures forall i: nat :: i < |g.payloads| ==> (Find(t.blocks, i) < |t.blocks| <==> i < Needed(g, left))
    ensures forall i: nat :: i < Needed(g, left) ==> Find(t.blocks, i) == i
  {
    hide Packet, Packets, Missing, Find, LargestOf, Mixed;
    var j := Needed(g, left);
    assert Groups.WellFormed(g) && 0 < j <= |g.payloads| by { MixedCounts(t, g, left, r); }
    MixedFacts(t, g, left, r);
    MissingSize(t.blocks, UpTo(j), |g.payloads|, |g.payloads|);
    BelowAll(UpTo(j), |g.payloads|);
    forall i: nat
      ensures Find(t.blocks, i) < |t.blocks| <==> i < j
      ensures i < j ==> Find(t.blocks, i) == i
    {
      FindIndexed(t.blocks, UpTo(j), i);
      assert i < j ==> UpTo(j)[i] == i;
    }
  }

  lemma MixedCounts(t: State, g: Group, left: seq<FECBlock>, r: nat)
    requires Mixed(t, g, left, r)
    ensures Groups.WellFormed(g) && 0 < Needed(g, left) < |g.payloads| && r < g.nFec
  {
  }

  // ---------- when decoding is possible ----------

  /** The leftovers can be decoded with parity block r: no number twice and every block long enough. */
  predicate Usable(left: seq<FECBlock>, r: nat, size: nat)
  {
    DistinctBelow(ParityNumbers(left) + [r], LIMIT) && forall k :: 0 <= k < |left| ==> size <= |left[k].body|
  }

  lemma MixedDecodableExactlyWhen(t: State, g: Group, left: seq<FECBlock>, r: nat)
    requires Mixed(t, g, left, r)
    ensures Decodable(t) <==> Usable(left, r, t.blockSize)
    ensures t.blocks != [] && t.blocks[0].nBlocks == |g.payloads| && t.blocks[0].nFecBlocks == g.nFec
  {
    hide Packet, Packets, Missing, Find, LargestOf;
    MixedFacts(t, g, left, r);
    MixedMissing(t, g, left, r);
    PacketHeader(g, 0);
    var p := Packet(g, |g.payloads| + r);
    PacketHeader(g, |g.payloads| + r);
    assert ParityNumbers(t.fecBlocks) == ParityNumbers(left) + [r];
    forall k | 0 <= k < |t.blocks|
      ensures t.blocks[k].block < |g.payloads| && t.blockSize <= |t.blocks[k].body|
    {
      PacketHeader(g, k);
    }
    assert forall k :: 0 <= k < |left| ==> t.fecBlocks[k] == left[k];
    assert t.fecBlocks[|left|] == p;
  }

  // ---------- what comes out ----------

  /** The leftovers happen to be what the parity of g would be under their numbers. */
  ghost predicate Matching(g: Group, left: seq<FECBlock>, size: nat)
    requires Groups.WellFormed(g) && size <= Size(g) && DistinctBelow(ParityNumbers(left), LIMIT)
    requires forall k :: 0 <= k < |left| ==> size <= |left[k].body|
  {
    forall k :: 0 <= k < |left| ==> left[k].body[..size] == Parity(Original(g, size), size, ParityNumbers(left)[k])
  }

  lemma MixedSurvivors(t: State, g: Group, left: seq<FECBlock>, r: nat)
    requires Mixed(t, g, left, r)
    ensures 2 <= t.blockSize <= Size(g) && t.blocks != []
    ensures var table := Table(t, |g.payloads|);
      && (forall i :: 0 <= i < |table| ==> t.blockSize <= |table[i].body|)
      && SameSurvivors(Original(g, t.blockSize), DecoderModel.Bodies(table, t.blockSize),
                        Missing(t.blocks, |g.payloads|))
      && forall i :: 0 <= i < Needed(g, left) ==> table[i] == Packet(g, i)
  {
    hide Packet, Packets, Missing, Find, LargestOf, Mixed, Padded;
    MixedCounts(t, g, left, r);
    MixedFacts(t, g, left, r);
    MixedMissing(t, g, left, r);
    var table := Table(t, |g.payloads|);
    forall i | 0 <= i < |table|
      ensures i < Needed(g, left) ==> table[i] == Packet(g, i)
      ensures t.blockSize <= |table[i].body|
    {
    }
    var d, received := Original(g, t.blockSize), DecoderModel.Bodies(table, t.blockSize);
    forall c | 0 <= c < |d| && c !in Missing(t.blocks, |g.payloads|)
      ensures d[c] == received[c]
    {
      PacketBody(g, c);
    }
  }

  lemma MixedHasParity(t: State, g: Group, left: seq<FECBlock>, r: nat)
    requires Mixed(t, g, left, r) && Usable(left, r, t.blockSize)
    ensures 2 <= t.blockSize <= Size(g) && DistinctBelow(ParityNumbers(left), LIMIT)
    ensures DistinctBelow(ParityNumbers(t.fecBlocks), LIMIT)
    ensures forall k :: 0 <= k < |t.fecBlocks| ==> t.blockSize <= |t.fecBlocks[k].body|
    ensures HasParity(Original(g, t.blockSize), t.blockSize, ParityNumbers(t.fecBlocks),
                      DecoderModel.Bodies(t.fecBlocks, t.blockSize))
       <==> Matching(g, left, t.blockSize)
  {
    hide Packet, Packets, LargestOf, Parity, Padded;
    var size, n := t.blockSize, |g.payloads|;
    MixedFacts(t, g, left, r);
    PacketHeader(g, n + r);
    PacketBody(g, n + r);
    ParityPrefix(Groups.Bodies(g), Size(g), size, r);
    var nos, f := ParityNumbers(t.fecBlocks), DecoderModel.Bodies(t.fecBlocks, size);
    assert nos == ParityNumbers(left) + [r];
    forall k | 0 <= k < |left|
      ensures nos[k] == ParityNumbers(left)[k] && f[k] == left[k].body[..size]
    {
      assert t.fecBlocks[k] == left[k];
    }
    assert DistinctBelow(ParityNumbers(left), LIMIT) by {
      assert forall k :: 0 <= k < |left| ==> ParityNumbers(left)[k] == nos[k];
    }
    assert f[|left|] == Parity(Original(g, size), size, nos[|left|]);
  }

  /** The first bytes of every block of the repaired table are those that were sent. */
  ghost predicate BytesRight(table: seq<FECBlock>, g: Group, size: nat)
    requires Groups.WellFormed(g) && size <= Size(g)
  {
    && |table| == |g.payloads|
    && forall i :: 0 <= i < |table| ==>
         size <= |table[i].body| && table[i].body[..size] == Original(g, size)[i]
  }

  /** The blocks that decoding with leftovers releases are right exactly when the leftovers match. */
  lemma MixedRightExactlyWhen(t: State, g: Group, left: seq<FECBlock>, r: nat)
    requires Mixed(t, g, left, r) && Usable(left, r, t.blockSize)
    ensures Decodable(t) && 2 <= t.blockSize <= Size(g) && DistinctBelow(ParityNumbers(left), LIMIT)
    ensures BytesRight(RepairedTable(t), g, t.blockSize) <==> Matching(g, left, t.blockSize)
  {
    hide Packet, Packets, Missing, Find, LargestOf, Mixed, Padded, Repair, Parity, ParityNumbers;
    hide Matching, Decodable, Table;
    MixedCounts(t, g, left, r);
    MixedDecodableExactlyWhen(t, g, left, r);
    MixedSurvivors(t, g, left, r);
    MixedHasParity(t, g, left, r);
    MixedMissing(t, g, left, r);
    var n, size := |g.payloads|, t.blockSize;
    var d, received := Original(g, size), DecoderModel.Bodies(Table(t, n), size);
    var nos, f := ParityNumbers(t.fecBlocks), DecoderModel.Bodies(t.fecBlocks, size);
    assert Repairable(n, Missing(t.blocks, n), nos) by { DecodableRepairs(t); }
    RepairRightExactlyWhen(d, received, size, Missing(t.blocks, n), nos, f);
    TableRightExactlyWhen(t, g, d, Repair(received, size, Missing(t.blocks, n), nos, f));
  }

  lemma DecodableRepairs(t: State)
    requires Decodable(t)
    ensures Repairable(t.blocks[0].nBlocks, Missing(t.blocks, t.blocks[0].nBlocks), ParityNumbers(t.fecBlocks))
  {
  }

  lemma TableRightExactlyWhen(t: State, g: Group, d: seq<vec>, d': seq<vec>)
    requires Decodable(t) && t.blocks[0].nBlocks == |g.payloads| && Groups.WellFormed(g) && t.blockSize <= Size(g)
    requires d == Original(g, t.blockSize) && |d'| == |d|
    requires forall i :: 0 <= i < |g.payloads| ==> t.blockSize <= |Table(t, |g.payloads|)[i].body|
    requires var n := |g.payloads|;
      d' == Repair(DecoderModel.Bodies(Table(t, n), t.blockSize), t.blockSize, Missing(t.blocks, n),
                   ParityNumbers(t.fecBlocks), DecoderModel.Bodies(t.fecBlocks, t.blockSize))
    ensures BytesRight(RepairedTable(t), g, t.blockSize) <==> d' == d
  {
    hide Find, Missing, Table, ParityNumbers, Repair, Original;
    var size, n, table := t.blockSize, |g.payloads|, RepairedTable(t);
    forall i | 0 <= i < n
      ensures size <= |table[i].body| && table[i].body[..size] == d'[i]
    {
      if Find(t.blocks, i) < |t.blocks| {
        assert i !in Missing(t.blocks, n);
      } else {
        assert d'[i][..size] == d'[i];
      }
    }
  }

  // ---------- the packets that lead there ----------

  lemma DataSize(t: State, p: FECBlock)
    requires p.WellFormed() && p.IsData() && !NoFec(p) && !Ignored(t, p)
    requires t.blockSize == 0 || t.prevSeq == p.seqNum
    requires |t.blocks| + 1 < p.nBlocks
    ensures Accepts(t, p) && Step(t, p).blockSize == Max(t.blockSize, p.BlockSize())
  {
    hide Decodable, Decoded;
  }

  lemma {:induction false} LoadSize(s: State, g: Group, idx: seq<nat>, j: nat)
    requires Steady(s) && s.blockSize == 0 && s.prevSeq != g.seqNum && Groups.WellFormed(g) && Survivors(g, idx)
    requires j <= |idx| && j < |g.payloads| && forall k :: 0 <= k < j ==> idx[k] < |g.payloads|
    ensures AcceptsAll(s, Received(g, idx)[..j])
    ensures Feed(s, Received(g, idx)[..j]).blockSize == LargestOf(g.payloads, idx[..j])
  {
    hide Packet, Step, Accepts, Loading, LargestOf;
    LoadRun(s, g, idx, j);
    if j > 0 {
      LoadSize(s, g, idx, j - 1);
      LoadRun(s, g, idx, j - 1);
      OneMore(s, g, idx, j);
      var t := Feed(s, Received(g, idx)[..j - 1]);
      DataPacket(g, idx[j - 1]);
      PacketHeader(g, idx[j - 1]);
      LargestNext(g.payloads, idx, j - 1);
      assert |t.blocks| == j - 1 && (j > 1 ==> t.prevSeq == g.seqNum && t.blockSize != 0) && (j == 1 ==> t == s)
        by { LoadedFacts(t, s, g, idx, j - 1); }
      DataSize(t, Packet(g, idx[j - 1]));
    } else {
      NoneLargest(g.payloads);
    }
  }

  lemma NoneLargest(payloads: seq<vec>)
    ensures LargestOf(payloads, []) == 0
  {
  }

  lemma LoadedFacts(t: State, s: State, g: Group, idx: seq<nat>, j: nat)
    requires Loading(t, s, g, idx, j) && s.blocks == []
    ensures |t.blocks| == j && (j == 0 ==> t == s) && (j > 0 ==> t.prevSeq == g.seqNum && t.blockSize != 0)
  {
  }

  /** With parity blocks left over, the first data blocks of the next group and one of its parity blocks
      make the decoder start. It can decode exactly when no number comes twice and every leftover is long
      enough; then it releases the data blocks it got and what it solved from the mixture. */
  lemma LeftoverDecodes(s: State, g: Group, r: nat)
    requires s.blockSize == 0 && s.blocks == [] && s.fecBlocks != [] && s.prevSeq != g.seqNum
    requires Groups.WellFormed(g) && r < g.nFec && Needed(g, s.fecBlocks) > 0
    ensures var j := Needed(g, s.fecBlocks);
      var idx := UpTo(j) + [|g.payloads| + r];
      var size := LargestOf(g.payloads, UpTo(j));
      && Survivors(g, idx)
      && (AcceptsAll(s, Received(g, idx)) <==> Usable(s.fecBlocks, r, size))
      && (Usable(s.fecBlocks, r, size) ==>
            exists t :: Mixed(t, g, s.fecBlocks, r) && Decodable(t) && 2 <= t.blockSize
              && Feed(s, Received(g, idx)).out == s.out + Packets(g)[..j] + Sendable(RepairedTable(t), t.blockSize, j))
  {
    hide Packet, Packets, Step, Accepts, Loading, LargestOf, Usable, Decodable, Sendable, RepairedTable;
    var n, j := |g.payloads|, Needed(g, s.fecBlocks);
    var idx := UpTo(j) + [n + r];
    LoadRun(s, g, idx, j);
    LoadSize(s, g, idx, j);
    assert idx[..j] == UpTo(j);
    var all := Received(g, idx);
    assert all[..j] == all[..|all| - 1] && all[|all| - 1] == Packet(g, n + r);
    LastParity(Feed(s, all[..j]), s, g, idx, r);
  }

  lemma LastParity(l: State, s: State, g: Group, idx: seq<nat>, r: nat)
    requires s.blockSize == 0 && s.blocks == [] && s.fecBlocks != [] && s.prevSeq != g.seqNum
    requires Groups.WellFormed(g) && r < g.nFec && Needed(g, s.fecBlocks) > 0
    requires Loading(l, s, g, idx, Needed(g, s.fecBlocks)) && idx == UpTo(Needed(g, s.fecBlocks)) + [|g.payloads| + r]
    requires l.blockSize == LargestOf(g.payloads, UpTo(Needed(g, s.fecBlocks)))
    ensures var p, j := Packet(g, |g.payloads| + r), Needed(g, s.fecBlocks);
      && (Accepts(l, p) <==> Usable(s.fecBlocks, r, l.blockSize))
      && (Usable(s.fecBlocks, r, l.blockSize) ==>
            exists t :: Mixed(t, g, s.fecBlocks, r) && Decodable(t) && 2 <= t.blockSize
              && Step(l, p).out == s.out + Packets(g)[..j] + Sendable(RepairedTable(t), t.blockSize, j))
  {
    hide Packet, Packets, LargestOf, Usable, Decodable, Decoded, Sendable, RepairedTable, Prepared;
    var p, j := Packet(g, |g.payloads| + r), Needed(g, s.fecBlocks);
    PacketHeader(g, |g.payloads| + r);
    MidGroup(l, p);
    LoadedBlocks(l, s, g, idx, j);
    var t := Prepared(Counted(l, p), p).(fecBlocks := s.fecBlocks + [p]);
    assert Mixed(t, g, s.fecBlocks, r);
    MixedDecodableExactlyWhen(t, g, s.fecBlocks, r);
    if Usable(s.fecBlocks, r, l.blockSize) {
      MixedReleases(t, g, s.fecBlocks, r);
    }
  }

  lemma LoadedBlocks(t: State, s: State, g: Group, idx: seq<nat>, j: nat)
    requires Loading(t, s, g, idx, j) && 0 < j && j < |idx| && idx[..j] == UpTo(j)
    ensures t.blocks == Packets(g)[..j] && t.out == s.out + Packets(g)[..j]
  {
    hide Packet;
    assert forall k :: 0 <= k < j ==> idx[k] == idx[..j][k] == k;
    assert idx[j - 1] == j - 1;
  }

  lemma MixedReleases(t: State, g: Group, left: seq<FECBlock>, r: nat)
    requires Mixed(t, g, left, r) && Decodable(t)
    ensures 2 <= t.blockSize
    ensures Decoded(t).out == t.out + Sendable(RepairedTable(t), t.blockSize, Needed(g, left))
  {
    hide Packet, Packets, Missing, Find, LargestOf, Sendable, RepairedTable;
    MixedFacts(t, g, left, r);
    MixedMissing(t, g, left, r);
    MixedDecodableExactlyWhen(t, g, left, r);
    var m := Missing(t.blocks, |g.payloads|);
    assert m[0] in m && Needed(g, left) in m;
    FirstMissing(m, |g.payloads|, Needed(g, left));
  }
}
