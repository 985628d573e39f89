/** What the state in which one group leaves the decoder means for the next group. */
module NextGroup {
  import opened ErasureCode
  import opened Blocks
  import opened Groups
  import opened DecoderModel
  import opened DecoderRun
  import opened LossyRun
  import opened Guarantees
  import opened SequenceWrap

  /** The block size is known exactly while a data block is stored. */
  predicate Steady(s: State)
  {
    s.blockSize == 0 <==> s.blocks == []
  }

  lemma StepKeepsSteady(s: State, p: FECBlock)
    requires Steady(s) && Accepts(s, p) && (p.IsData() ==> p.BlockSize() != 0)
    ensures Steady(Step(s, p))
  {
    hide RepairedTable, Decodable, Released;
  }

  /** So it is in every state that packets can lead to, in whatever order they arrive. */
  lemma {:induction false} RunKeepsSteady(s: State, ps: seq<FECBlock>)
    requires Steady(s) && AcceptsAll(s, ps)
    requires forall i :: 0 <= i < |ps| ==> ps[i].WellFormed() && (ps[i].IsData() ==> ps[i].BlockSize() != 0)
    ensures Steady(Feed(s, ps))
  {
    hide Step, Accepts, Steady;
    if ps != [] {
      RunKeepsSteady(s, ps[..|ps| - 1]);
      StepKeepsSteady(Feed(s, ps[..|ps| - 1]), ps[|ps| - 1]);
    }
  }

  /** The decoder takes the survivors and puts out for them what it should. */
  ghost predicate DeliversRight(s: State, g: Group, idx: seq<nat>)
    requires Groups.WellFormed(g) && Survivors(g, idx)
  {
    && AcceptsAll(s, Received(g, idx))
    && var t := Feed(s, Received(g, idx));
       && s.out <= t.out && (forall i :: |s.out| <= i < |t.out| ==> t.out[i].WellFormed())
       && Payloads(t.out[|s.out|..]) == Delivered(g, idx)
  }

  // ---------- a group with a new number ----------

  /** The parity blocks that a new group finds: only between groups they are not thrown away. */
  function Left(s: State): seq<FECBlock>
  {
    if s.blockSize == 0 then s.fecBlocks else []
  }

  /** The data blocks idx[..j] of a new group are stored, beside whatever parity blocks were left. */
  ghost predicate Loading(t: State, s: State, g: Group, idx: seq<nat>, j: nat)
  {
    && Groups.WellFormed(g) && Survivors(g, idx) && j <= |idx| && j < |g.payloads|
    && if j == 0 then t == s else
         && t.prevSeq == g.seqNum && t.blockSize != 0
         && t.blocks == Received(g, idx)[..j]
         && t.fecBlocks == Left(s)
         && t.out == s.out + Packets(g)[..Leading(idx, j)]
  }

  lemma LoadNext(t: State, s: State, g: Group, idx: seq<nat>, j: nat)
    requires Steady(s) && s.prevSeq != g.seqNum && Loading(t, s, g, idx, j) && j < |idx| && idx[j] < |g.payloads|
    ensures Accepts(t, Packet(g, idx[j]))
    ensures var u := Step(t, Packet(g, idx[j]));
      && (j + 1 < |g.payloads| ==> Loading(u, s, g, idx, j + 1))
      && (j + 1 == |g.payloads| ==>
            && u.prevSeq == g.seqNum && u.blockSize == 0 && u.blocks == [] && u.fecBlocks == []
            && u.out == s.out + Packets(g)[..Leading(idx, j + 1)])
  {
    hide Packet, Packets, Leading, Step, Accepts, Steady, Payloads;
    var p := Packet(g, idx[j]);
    DataPacket(g, idx[j]);
    PacketHeader(g, idx[j]);
    LeadingPackets(g, idx, j);
    assert Received(g, idx)[..j + 1] == Received(g, idx)[..j] + [p];
    if j == 0 {
      EnterWithData(s, p);
      assert Received(g, idx)[..1] == [p];
    } else {
      GoOnWithData(t, p);
    }
  }

  /** A data packet of another group: parity blocks are left over only between groups. */
  lemma EnterWithData(s: State, p: FECBlock)
    requires Steady(s) && s.prevSeq != p.seqNum && p.WellFormed() && p.IsData() && !NoFec(p) && p.BlockSize() != 0
    ensures Accepts(s, p)
    ensures var u := Step(s, p);
      && u.prevSeq == p.seqNum && u.out == (if p.block == 0 then s.out + [p] else s.out)
      && (p.nBlocks == 1 ==> u.blockSize == 0 && u.blocks == [] && u.fecBlocks == [])
      && (p.nBlocks > 1 ==> u.blockSize != 0 && u.blocks == [p] && u.fecBlocks == Left(s))
  {
    hide Decodable, Decoded;
    var q := Prepared(Counted(s, p), p);
    assert q.blocks == [] && q.blockSize == 0 && q.out == s.out && q.fecBlocks == Left(s);
  }

  lemma GoOnWithData(t: State, p: FECBlock)
    requires t.blockSize != 0 && t.prevSeq == p.seqNum && p.WellFormed() && p.IsData() && !NoFec(p)
    ensures Accepts(t, p)
    ensures var u := Step(t, p);
      && u.prevSeq == p.seqNum && u.out == (if p.block == |t.blocks| then t.out + [p] else t.out)
      && (p.nBlocks == |t.blocks| + 1 ==> u.blockSize == 0 && u.blocks == [] && u.fecBlocks == [])
      && (p.nBlocks != |t.blocks| + 1 ==> u.blockSize != 0 && u.blocks == t.blocks + [p] && u.fecBlocks == t.fecBlocks)
  {
    hide Decodable, Decoded, Prepared;
    MidGroup(t, p);
  }

  lemma LeadingPackets(g: Group, idx: seq<nat>, j: nat)
    requires Groups.WellFormed(g) && Survivors(g, idx) && j < |idx| && j < |g.payloads|
    ensures Leading(idx, 0) == 0
    ensures Packets(g)[..Leading(idx, j + 1)] == Packets(g)[..Leading(idx, j)] + if idx[j]
         == j then [Packet(g, j)] else []
  {
    hide Packet;
    if idx[j] == j {
      LeadingFullAll(g, idx, j);
      assert Packets(g)[..j + 1] == Packets(g)[..j] + [Packet(g, j)];
    }
  }

  lemma {:induction false} LoadRun(s: State, g: Group, idx: seq<nat>, j: nat)
    requires Steady(s) && s.prevSeq != g.seqNum && Groups.WellFormed(g) && Survivors(g, idx)
    requires j <= |idx| && j < |g.payloads| && forall k :: 0 <= k < j ==> idx[k] < |g.payloads|
    ensures AcceptsAll(s, Received(g, idx)[..j]) && Loading(Feed(s, Received(g, idx)[..j]), s, g, idx, j)
  {
    hide Packet, Step, Accepts, Steady, Leading;
    if j > 0 {
      LoadRun(s, g, idx, j - 1);
      OneMore(s, g, idx, j);
      LoadNext(Feed(s, Received(g, idx)[..j - 1]), s, g, idx, j - 1);
    }
  }

  /** The survivors up to j are those up to j - 1 and one more. */
  lemma OneMore(s: State, g: Group, idx: seq<nat>, j: nat)
    requires Groups.WellFormed(g) && Survivors(g, idx) && 0 < j <= |idx|
    ensures var r := Received(g, idx);
      AcceptsAll(s, r[..j - 1]) && Accepts(Feed(s, r[..j - 1]), Packet(g, idx[j - 1])) ==>
        AcceptsAll(s, r[..j]) && Feed(s, r[..j]) == Step(Feed(s, r[..j - 1]), Packet(g, idx[j - 1]))
  {
    hide Packet, Step, Accepts;
    var r := Received(g, idx);
    assert r[..j][..j - 1] == r[..j - 1];
    assert r[..j][j - 1] == Packet(g, idx[j - 1]);
  }

  /** When all data blocks arrive, parity blocks left over from another group do no harm. */
  lemma {:induction false} AllDataRun(s: State, g: Group, idx: seq<nat>, j: nat)
    requires Steady(s) && s.prevSeq != g.seqNum && Groups.WellFormed(g) && Survivors(g, idx)
    requires |g.payloads| <= j <= |idx| && forall k :: 0 <= k < |g.payloads| ==> idx[k] == k
    ensures AcceptsAll(s, Received(g, idx)[..j]) && GroupDone(Feed(s, Received(g, idx)[..j]), s, g, idx)
    decreases j
  {
    hide Packet, Step, Accepts, Steady, GroupDone, Loading, Delivers;
    var n, r := |g.payloads|, Received(g, idx);
    if j == n {
      LoadRun(s, g, idx, n - 1);
      LoadNext(Feed(s, r[..n - 1]), s, g, idx, n - 1);
      OneMore(s, g, idx, n);
      LeadingNext(idx, n - 1);
      AllDelivered(Feed(s, r[..n]), s, g, idx);
      assert GroupDone(Feed(s, r[..n]), s, g, idx) by { DoneWhen(Feed(s, r[..n]), s, g, idx); }
    } else {
      AllDataRun(s, g, idx, j - 1);
      OneMore(s, g, idx, j);
      AfterComplete(Feed(s, r[..j - 1]), s, g, idx, idx[j - 1]);
    }
  }

  lemma DoneWhen(t: State, s: State, g: Group, idx: seq<nat>)
    requires Groups.WellFormed(g) && Survivors(g, idx) && Delivers(t.out, s.out, g, idx)
    requires t.prevSeq == g.seqNum && t.blockSize == 0 && t.blocks == [] && t.fecBlocks == []
    ensures GroupDone(t, s, g, idx)
  {
  }

  // ---------- a group with the number of the last one ----------

  /** The data blocks are stored behind those of the last group, or ignored since a group was complete. */
  ghost predicate Stale(t: State, s: State, g: Group, j: nat)
  {
    && t.prevSeq == g.seqNum && t.out == s.out
    && (t.blockSize != 0 ==> s.blocks != [] && |t.blocks| == |s.blocks| + j)
  }

  lemma StaleData(t: State, s: State, g: Group, j: nat)
    requires Groups.WellFormed(g) && Stale(t, s, g, j) && j < |g.payloads|
    ensures Accepts(t, Packet(g, j)) && Stale(Step(t, Packet(g, j)), s, g, j + 1)
  {
    hide Parity, Packet, Decodable, Decoded;
    DataPacket(g, j);
    PacketHeader(g, j);
  }

  lemma StaleParity(t: State, s: State, g: Group, k: nat)
    requires Groups.WellFormed(g) && Stale(t, s, g, |g.payloads|) && |g.payloads| <= k < |g.payloads| + g.nFec
    ensures Accepts(t, Packet(g, k)) && Stale(Step(t, Packet(g, k)), s, g, |g.payloads|)
  {
    hide Parity, Packet, Decodable, Decoded;
    PacketHeader(g, k);
  }

  lemma {:induction false} StaleRun(s: State, g: Group, idx: seq<nat>, j: nat)
    requires Steady(s) && s.prevSeq == g.seqNum && Groups.WellFormed(g) && Survivors(g, idx) && j <= |idx|
    requires |g.payloads| <= |idx| && forall k :: 0 <= k < |g.payloads| ==> idx[k] == k
    ensures AcceptsAll(s, Received(g, idx)[..j])
    ensures Stale(Feed(s, Received(g, idx)[..j]), s, g, if j < |g.payloads| then j else |g.payloads|)
  {
    hide Packet, Step, Accepts;
    if j > 0 {
      StaleRun(s, g, idx, j - 1);
      OneMore(s, g, idx, j);
      var t := Feed(s, Received(g, idx)[..j - 1]);
      if j - 1 < |g.payloads| {
        StaleData(t, s, g, j - 1);
      } else {
        assert idx[|g.payloads| - 1] < idx[j - 1];
        StaleParity(t, s, g, idx[j - 1]);
      }
    }
  }

  /** A block of a group with the number of an unfinished one is taken for a block of that one: as its
      block k it comes out at once, although its own group has a gap before it. */
  lemma StaleReleases(s: State, g: Group)
    requires Steady(s) && s.blocks != [] && s.prevSeq == g.seqNum
    requires Groups.WellFormed(g) && |s.blocks| < |g.payloads|
    ensures Survivors(g, [|s.blocks|]) && Delivered(g, [|s.blocks|]) == []
    ensures Accepts(s, Packet(g, |s.blocks|))
    ensures Step(s, Packet(g, |s.blocks|)).out == s.out + [Packet(g, |s.blocks|)]
  {
    hide Parity, Packet, Decodable, Decoded;
    var k := |s.blocks|;
    DataPacket(g, k);
    PacketHeader(g, k);
    NothingDelivered(g, [k]);
  }

  // ---------- exactly when the next group is delivered ----------

  /** A group whose data blocks all arrive comes out, and leaves the decoder ready, exactly when its
      number differs from the last one. */
  lemma AllDataExactlyWhen(s: State, g: Group, idx: seq<nat>)
    requires Steady(s) && Groups.WellFormed(g) && Survivors(g, idx) && AllData(g, idx)
    ensures AcceptsAll(s, Received(g, idx)) && Delivered(g, idx) == Exactly(g.payloads)
    ensures DeliversRight(s, g, idx) <==> s.prevSeq != g.seqNum
    ensures DeliversRight(s, g, idx) ==> Clean(Feed(s, Received(g, idx)))
    ensures !DeliversRight(s, g, idx) ==> Feed(s, Received(g, idx)).out == s.out
  {
    hide Packet, Step, Accepts, Feed, AcceptsAll, Steady, Delivered, Deliveries, AllData, Ascending;
    var n := |g.payloads|;
    AllDataDelivered(g, idx);
    assert |idx| >= n && forall k :: 0 <= k < n ==> idx[k] == k by { AllDataFirst(g, idx); }
    assert Received(g, idx)[..|idx|] == Received(g, idx);
    if s.prevSeq != g.seqNum {
      AllDataRun(s, g, idx, |idx|);
      WholeDelivery(g, idx);
    } else {
      StaleRun(s, g, idx, |idx|);
      assert Payloads([]) == [];
    }
  }

  lemma AllDataFirst(g: Group, idx: seq<nat>)
    requires Survivors(g, idx) && AllData(g, idx)
    ensures |idx| >= |g.payloads| && forall k :: 0 <= k < |g.payloads| ==> idx[k] == k
  {
    AllDataCount(g, idx, |g.payloads|);
  }

  lemma WholeDelivery(g: Group, idx: seq<nat>)
    requires Survivors(g, idx) && |idx| >= |g.payloads|
    ensures Delivered(g, idx) == Deliveries(g, idx, 0)
  {
  }

  /** A new decoder takes a first group numbered 0 for late packets of a group before it. */
  lemma FirstNumberZero(g: Group, idx: seq<nat>)
    requires Groups.WellFormed(g) && Survivors(g, idx) && AllData(g, idx)
    ensures AcceptsAll(INITIAL, Received(g, idx))
    ensures g.seqNum == 0 ==> Feed(INITIAL, Received(g, idx)).out == [] && Delivered(g, idx) == Exactly(g.payloads)
    ensures DeliversRight(INITIAL, g, idx) <==> g.seqNum != 0
  {
    hide Packet, Step, Accepts, Feed, AcceptsAll, Delivered, DeliversRight, AllData;
    AllDataExactlyWhen(INITIAL, g, idx);
  }

  /** All packets but the first one, as far as the first parity block. */
  function AllButFirst(n: nat): (idx: seq<nat>)
    ensures |idx| == n
  {
    seq(n, i requires 0 <= i < n => i + 1)
  }

  /** A parity block left over from another group spoils the next group that needs a repair: all of its
      blocks but the first arrive and a parity block, which would do, and nothing comes out. */
  lemma LeftoverSpoilsRepair(s: State, g: Group)
    requires s.blockSize == 0 && s.blocks == [] && s.fecBlocks != [] && s.prevSeq != g.seqNum
    requires Groups.WellFormed(g) && |g.payloads| >= 2
    ensures var idx := AllButFirst(|g.payloads|);
      && Survivors(g, idx) && Delivered(g, idx) != []
      && AcceptsAll(s, Received(g, idx)) && Feed(s, Received(g, idx)).out == s.out
  {
    hide Packet, Step, Accepts, Delivered, Leading, Loading;
    var n, idx := |g.payloads|, AllButFirst(|g.payloads|);
    NothingDelivered(g, idx);
    LoadRun(s, g, idx, n - 1);
    OneMore(s, g, idx, n);
    OneTooMany(Feed(s, Received(g, idx)[..n - 1]), s, g, idx);
    assert Received(g, idx)[..n] == Received(g, idx);
  }

  lemma OneTooMany(t: State, s: State, g: Group, idx: seq<nat>)
    requires Groups.WellFormed(g) && |g.payloads| >= 2 && idx == AllButFirst(|g.payloads|)
    requires s.blockSize == 0 && s.fecBlocks != [] && Loading(t, s, g, idx, |g.payloads| - 1)
    ensures Accepts(t, Packet(g, |g.payloads|)) && Step(t, Packet(g, |g.payloads|)).out == s.out
  {
    hide Packet, Decoded, Decodable;
    var n := |g.payloads|;
    LeadingMeans(g, idx, n - 1);
    assert idx[0] == 1;
    assert Leading(idx, n - 1) == 0;
    PacketHeader(g, n);
  }

  /** The decoder puts out what it should for every choice of survivors with a data block. */
  ghost predicate AlwaysRight(s: State, g: Group)
    requires Groups.WellFormed(g)
  {
    forall idx: seq<nat> :: Survivors(g, idx) && idx != [] && idx[0] < |g.payloads| ==> DeliversRight(s, g, idx)
  }

  /** In every state that packets can lead to: the next group is delivered as it should, whatever of it
      arrives, exactly when its number differs from the last one and no parity block was left over, or
      the group has one data block only. */
  lemma DeliveredExactlyWhen(s: State, g: Group)
    requires Steady(s) && Groups.WellFormed(g)
    ensures AlwaysRight(s, g) <==> s.prevSeq != g.seqNum && (Clean(s) || |g.payloads| == 1)
  {
    hide Packet, Step, Accepts, Feed, AcceptsAll, Delivered, DeliversRight;
    var n := |g.payloads|;
    if s.prevSeq == g.seqNum {
      AllArrive(g);
      AllDataExactlyWhen(s, g, UpTo(n));
    } else if Clean(s) {
      CleanRight(s, g);
    } else if n == 1 {
      OneBlockRight(s, g);
    } else {
      LeftoverSpoilsRepair(s, g);
      LeftoverWrong(s, g);
      assert AllButFirst(n)[0] == 1;
    }
  }

  lemma AllArrive(g: Group)
    requires Groups.WellFormed(g)
    ensures Survivors(g, UpTo(|g.payloads|)) && AllData(g, UpTo(|g.payloads|))
  {
    var idx := UpTo(|g.payloads|);
    forall i: nat | i < |g.payloads|
      ensures i in idx
    {
      assert idx[i] == i;
    }
  }

  lemma LeftoverWrong(s: State, g: Group)
    requires Groups.WellFormed(g) && Survivors(g, AllButFirst(|g.payloads|))
    requires Delivered(g, AllButFirst(|g.payloads|)) != []
    requires AcceptsAll(s, Received(g, AllButFirst(|g.payloads|)))
    requires Feed(s, Received(g, AllButFirst(|g.payloads|))).out == s.out
    ensures !DeliversRight(s, g, AllButFirst(|g.payloads|))
  {
    hide Feed, AcceptsAll, Received, Delivered;
    assert s.out[|s.out|..] == [];
    assert Payloads([]) == [];
  }

  lemma CleanRight(s: State, g: Group)
    requires Clean(s) && Groups.WellFormed(g) && s.prevSeq != g.seqNum
    ensures AlwaysRight(s, g)
  {
    hide Packet, Step, Accepts, Feed, AcceptsAll, Delivered;
    forall idx: seq<nat> | Survivors(g, idx) && idx != [] && idx[0] < |g.payloads|
      ensures DeliversRight(s, g, idx)
    {
      GroupDelivers(s, g, idx);
    }
  }

  lemma OneBlockRight(s: State, g: Group)
    requires Steady(s) && Groups.WellFormed(g) && s.prevSeq != g.seqNum && |g.payloads| == 1
    ensures AlwaysRight(s, g)
  {
    hide Packet, Step, Accepts, Feed, AcceptsAll, Delivered, DeliversRight;
    forall idx: seq<nat> | Survivors(g, idx) && idx != [] && idx[0] < |g.payloads|
      ensures DeliversRight(s, g, idx)
    {
      assert idx[0] == 0;
      AllDataExactlyWhen(s, g, idx);
    }
  }

  /** What is worse: with a leftover parity block that has the number of one of the group's own, the
      decoder is made to decode with two parity blocks of one number, which cannot be solved. */
  lemma LeftoverCollides(s: State, g: Group, r: nat)
    requires s.blockSize == 0 && s.blocks == [] && r in ParityNumbers(s.fecBlocks) && s.prevSeq != g.seqNum
    requires Groups.WellFormed(g) && r < g.nFec && |s.fecBlocks| + 2 <= |g.payloads|
    ensures var n := |g.payloads|;
      var idx := UpTo(n - 1 - |s.fecBlocks|) + [n + r];
      Survivors(g, idx) && !AcceptsAll(s, Received(g, idx))
  {
    hide Packet, Step, Accepts, Loading;
    var n := |g.payloads|;
    var j := n - 1 - |s.fecBlocks|;
    var idx := UpTo(j) + [n + r];
    LoadRun(s, g, idx, j);
    var all := Received(g, idx);
    assert all[..j] == all[..|all| - 1] && all[|all| - 1] == Packet(g, n + r);
    TwoOfOneNumber(Feed(s, all[..j]), s, g, idx, r);
  }

  lemma TwoOfOneNumber(t: State, s: State, g: Group, idx: seq<nat>, r: nat)
    requires Groups.WellFormed(g) && r < g.nFec && |s.fecBlocks| + 2 <= |g.payloads|
    requires s.blockSize == 0 && r in ParityNumbers(s.fecBlocks)
    requires Loading(t, s, g, idx, |g.payloads| - 1 - |s.fecBlocks|)
    ensures !Accepts(t, Packet(g, |g.payloads| + r))
  {
    hide Packet, Received, Packets, Decodable, Prepared;
    var p := Packet(g, |g.payloads| + r);
    PacketHeader(g, |g.payloads| + r);
    MidGroup(t, p);
    NotDecodable(Prepared(Counted(t, p), p).(fecBlocks := s.fecBlocks + [p]), s.fecBlocks, p);
  }

  lemma NotDecodable(t: State, fecBlocks: seq<FECBlock>, p: FECBlock)
    requires t.fecBlocks == fecBlocks + [p] && ParityNumber(p) in ParityNumbers(fecBlocks)
    ensures !Decodable(t)
  {
    hide Missing;
    var nos := ParityNumbers(t.fecBlocks);
    var i :| 0 <= i < |fecBlocks| && ParityNumbers(fecBlocks)[i] == ParityNumber(p);
    assert nos[i] == nos[|fecBlocks|];
  }
}
