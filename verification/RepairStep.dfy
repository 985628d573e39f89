/** The packet that completes a group with gaps: the decoder repairs it. */
module RepairStep {
  import opened LinearAlgebra
  import opened ErasureCode
  import opened Blocks
  import opened Groups
  import opened DecoderModel
  import opened DecoderRun

  // ---------- which blocks are missing ----------

  function Below(s: seq<nat>, k: nat): nat
  {
    if s == [] then 0 else Below(s[..|s| - 1], k) + if s[|s| - 1] < k then 1 else 0
  }

  lemma {:induction false} BelowStep(s: seq<nat>, n: nat, k: nat)
    requires Ascending(s, n)
    ensures Below(s, k + 1) == Below(s, k) + if k in s then 1 else 0
  {
    if s != [] {
      var m := |s| - 1;
      assert Ascending(s[..m], n);
      BelowStep(s[..m], n, k);
      assert s == s[..m] + [s[m]];
      assert k in s <==> k in s[..m] || s[m] == k;
      if s[m] == k {
        assert k !in s[..m];
      }
    }
  }

  lemma {:induction false} BelowAll(s: seq<nat>, n: nat)
    requires Ascending(s, n)
    ensures Below(s, n) == |s| && Below(s, 0) == 0
  {
    if s != [] {
      assert Ascending(s[..|s| - 1], n);
      BelowAll(s[..|s| - 1], n);
    }
  }

  /** The stored blocks have the indices s. */
  predicate Indexed(blocks: seq<FECBlock>, s: seq<nat>)
  {
    |blocks| == |s| && forall k :: 0 <= k < |s| ==> blocks[k].block == s[k]
  }

  lemma FindIndexed(blocks: seq<FECBlock>, s: seq<nat>, i: nat)
    requires Indexed(blocks, s)
    ensures Find(blocks, i) < |blocks| <==> i in s
    ensures Find(blocks, i) < |blocks| ==> s[Find(blocks, i)] == i
  {
    hide Find;
    if i in s {
      var k :| 0 <= k < |s| && s[k] == i;
      assert blocks[k].block == i;
    }
  }

  lemma {:induction false} MissingSize(blocks: seq<FECBlock>, s: seq<nat>, n: nat, k: nat)
    requires Indexed(blocks, s) && Ascending(s, n)
    ensures |Missing(blocks, k)| == k - Below(s, k)
  {
    hide Find, Ascending, Below, Indexed;
    if k == 0 {
      BelowAll(s, n);
    } else {
      MissingSize(blocks, s, n, k - 1);
      FindIndexed(blocks, s, k - 1);
      BelowStep(s, n, k - 1);
    }
  }

  lemma FirstMissing(m: seq<nat>, n: nat, l: nat)
    requires Ascending(m, n) && l in m && forall i: nat :: i < l ==> i !in m
    ensures m[0] == l
  {
    assert m[0] in m;
    assert forall k :: 0 <= k < |m| ==> m[0] <= m[k];
  }

  // ---------- the situation when the group is complete ----------

  /** n data blocks and the parity blocks that make up for the missing ones are stored. */
  ghost predicate Full(t: State, g: Group, idx: seq<nat>, n: nat)
  {
    var m := |g.payloads|;
    && Groups.WellFormed(g) && Survivors(g, idx)
    && 0 < n < m <= |idx|
    && n == DataCount(g, idx, |idx|)
    && t.blockSize == Learned(g, idx, |idx|)
    && t.blocks == Received(g, idx)[..n]
    && t.fecBlocks == Received(g, idx)[n..m]
  }

  /** The facts about a full group that the proofs use. */
  lemma FullFacts(t: State, g: Group, idx: seq<nat>, n: nat)
    requires Full(t, g, idx, n)
    ensures Indexed(t.blocks, idx[..n]) && Ascending(idx[..n], |g.payloads|)
    ensures forall k :: 0 <= k < n ==> t.blocks[k] == Packet(g, idx[k])
    ensures forall k :: n <= k < |g.payloads| ==> t.fecBlocks[k - n] == Packet(g, idx[k])
    ensures forall i: nat :: i < |g.payloads| ==> (i in idx <==> i in idx[..n])
    ensures 2 <= t.blockSize <= Size(g)
    ensures forall k :: 0 <= k < n ==> |g.payloads[idx[k]]| + 2 <= t.blockSize
  {
    hide Packet, LargestOf;
    forall k | 0 <= k < n
      ensures t.blocks[k] == Packet(g, idx[k]) && t.blocks[k].block == idx[k] && |g.payloads[idx[k]]| + 2 <= t.blockSize
    {
      PacketHeader(g, idx[k]);
      assert idx[..n][k] == idx[k];
    }
    forall i: nat | i < |g.payloads| && i in idx
      ensures i in idx[..n]
    {
      var k :| 0 <= k < |idx| && idx[k] == i;
      assert k < n;
      assert idx[..n][k] == i;
    }
    var k :| 0 <= k < n && t.blockSize == |g.payloads[idx[..n][k]]| + 2;
  }

  lemma MissingOfFull(t: State, g: Group, idx: seq<nat>, n: nat)
    requires Full(t, g, idx, n)
    ensures var e := Missing(t.blocks, |g.payloads|);
      && |e| == |g.payloads| - n
      && (forall i: nat :: i < |g.payloads| ==> (i in e <==> i !in idx))
      && Leading(idx, n) < |g.payloads| && e[0] == Leading(idx, n)
  {
    hide Packet, Missing, Find, Received, Ascending, LargestOf;
    var m := |g.payloads|;
    var e := Missing(t.blocks, m);
    FullFacts(t, g, idx, n);
    MissingSize(t.blocks, idx[..n], m, m);
    BelowAll(idx[..n], m);
    forall i: nat | i < m
      ensures i in e <==> i !in idx
    {
      FindIndexed(t.blocks, idx[..n], i);
    }
    var l := Leading(idx, n);
    LeadingMeans(g, idx, n);
    forall i: nat | i < l
      ensures i in idx
    {
      assert idx[i] == i;
    }
    GapAt(g, idx, n, l);
    FirstMissing(e, m, l);
  }

  /** The index after the leading ones did not arrive. */
  lemma GapAt(g: Group, idx: seq<nat>, n: nat, l: nat)
    requires Survivors(g, idx) && n == DataCount(g, idx, |idx|) && n < |g.payloads|
    requires l <= n && (forall k :: 0 <= k < l ==> idx[k] == k) && (l < n ==> idx[l] > l)
    ensures l !in idx
  {
    forall k | 0 <= k < |idx|
      ensures idx[k] != l
    {
      if l < n && k > l {
        assert idx[l] < idx[k];
      }
    }
  }

  lemma ParityNumbersOfFull(t: State, g: Group, idx: seq<nat>, n: nat)
    requires Full(t, g, idx, n)
    ensures forall k :: 0 <= k < |t.fecBlocks| ==> ParityNumbers(t.fecBlocks)[k] == idx[n + k] - |g.payloads|
    ensures DistinctBelow(ParityNumbers(t.fecBlocks), g.nFec)
  {
    hide Packet, LargestOf;
    FullFacts(t, g, idx, n);
    forall k | 0 <= k < |t.fecBlocks|
      ensures ParityNumbers(t.fecBlocks)[k] == idx[n + k] - |g.payloads|
    {
      assert t.fecBlocks[(n + k) - n] == Packet(g, idx[n + k]);
      PacketHeader(g, idx[n + k]);
    }
  }

  lemma FullDecodable(t: State, g: Group, idx: seq<nat>, n: nat)
    requires Full(t, g, idx, n)
    ensures Decodable(t) && t.blocks[0].nBlocks == |g.payloads| && t.blocks[0].nFecBlocks == g.nFec
  {
    hide Packet, Missing, Find, LargestOf, ParityNumbers;
    FullFacts(t, g, idx, n);
    MissingOfFull(t, g, idx, n);
    ParityNumbersOfFull(t, g, idx, n);
    forall k | 0 <= k < n
      ensures t.blocks[k].block < |g.payloads| && |t.blocks[k].body| == Size(g)
    {
      PacketHeader(g, idx[k]);
    }
    forall k | 0 <= k < |t.fecBlocks|
      ensures |t.fecBlocks[k].body| == Size(g)
    {
      assert t.fecBlocks[(n + k) - n] == Packet(g, idx[n + k]);
    }
    PacketHeader(g, idx[0]);
    assert t.blocks[0] == Packet(g, idx[0]);
  }

  // ---------- the repaired bytes ----------

  /** What the first bytes of the group's data blocks were when they were encoded. */
  function Original(g: Group, size: nat): (d: seq<vec>)
    requires Groups.WellFormed(g) && size <= Size(g)
    ensures Stripe(d, size) && |d| == |g.payloads|
  {
    Prefixes(Groups.Bodies(g), Size(g), size)
  }

  lemma TableOfFull(t: State, g: Group, idx: seq<nat>, n: nat)
    requires Full(t, g, idx, n)
    ensures 2 <= t.blockSize <= Size(g) && t.blocks != []
    ensures var table := Table(t, |g.payloads|);
      && (forall i :: 0 <= i < |g.payloads| ==> t.blockSize <= |table[i].body|)
      && (forall i: nat :: i < |g.payloads| && i in idx ==> Find(t.blocks, i) < |t.blocks| && table[i] == Packet(g, i))
      && (forall i: nat :: i < |g.payloads| && i !in idx ==> Find(t.blocks, i) == |t.blocks|)
  {
    hide Packet, Find, LargestOf, Received;
    FullFacts(t, g, idx, n);
    forall i: nat | i < |g.payloads|
      ensures i in idx ==> Find(t.blocks, i) < |t.blocks| && t.blocks[Find(t.blocks, i)] == Packet(g, i)
      ensures i !in idx ==> Find(t.blocks, i) == |t.blocks|
    {
      FindIndexed(t.blocks, idx[..n], i);
    }
  }

  /** The decoder works on the survivors as sent ... */
  lemma SurvivorsOfFull(t: State, g: Group, idx: seq<nat>, n: nat)
    requires Full(t, g, idx, n)
    requires 2 <= t.blockSize <= Size(g) && t.blocks != []
    requires forall i :: 0 <= i < |g.payloads| ==> t.blockSize <= |Table(t, |g.payloads|)[i].body|
    ensures SameSurvivors(Original(g, t.blockSize), DecoderModel.Bodies(Table(t, |g.payloads|), t.blockSize),
                          Missing(t.blocks, |g.payloads|))
  {
    hide Packet, Find, LargestOf, Received, Missing, Table, Padded;
    TableOfFull(t, g, idx, n);
    MissingOfFull(t, g, idx, n);
    var d, received := Original(g, t.blockSize), DecoderModel.Bodies(Table(t, |g.payloads|), t.blockSize);
    forall c | 0 <= c < |d| && c !in Missing(t.blocks, |g.payloads|)
      ensures d[c] == received[c]
    {
      PacketBody(g, c);
    }
  }

  /** ... and on the parity of what was sent. */
  lemma ParityOfFull(t: State, g: Group, idx: seq<nat>, n: nat)
    requires Full(t, g, idx, n) && Decodable(t)
    ensures 2 <= t.blockSize <= Size(g)
    ensures DistinctBelow(ParityNumbers(t.fecBlocks), LIMIT)
    ensures HasParity(Original(g, t.blockSize), t.blockSize, ParityNumbers(t.fecBlocks),
                      DecoderModel.Bodies(t.fecBlocks, t.blockSize))
  {
    hide Packet, Find, LargestOf, Received, Missing, Parity, ParityNumbers, Padded;
    var size := t.blockSize;
    FullFacts(t, g, idx, n);
    ParityNumbersOfFull(t, g, idx, n);
    var d, nos, f := Original(g, size), ParityNumbers(t.fecBlocks), DecoderModel.Bodies(t.fecBlocks, size);
    forall j | 0 <= j < |nos|
      ensures f[j] == Parity(d, size, nos[j])
    {
      assert t.fecBlocks[(n + j) - n] == Packet(g, idx[n + j]);
      PacketBody(g, idx[n + j]);
      ParityPrefix(Groups.Bodies(g), Size(g), size, nos[j]);
    }
  }

  lemma PacketBody(g: Group, k: nat)
    requires Groups.WellFormed(g) && k < |g.payloads| + g.nFec
    ensures k < |g.payloads| ==> Packet(g, k).body == Groups.Bodies(g)[k]
    ensures k >= |g.payloads| ==> Packet(g, k).body == Parity(Groups.Bodies(g), Size(g), k - |g.payloads|)
  {
  }

  /** The repaired table: survivors as sent, and the first bytes of every missing block. */
  lemma RepairedOfFull(t: State, g: Group, idx: seq<nat>, n: nat)
    requires Full(t, g, idx, n) && Decodable(t) && t.blocks[0].nBlocks == |g.payloads|
    ensures 2 <= t.blockSize <= Size(g)
    ensures forall i: nat :: i < |g.payloads| && i in idx ==> RepairedTable(t)[i] == Packet(g, i)
    ensures forall i: nat :: i < |g.payloads| && i !in idx ==>
      RepairedTable(t)[i].body == Padded(g.payloads[i], Size(g))[..t.blockSize]
  {
    hide Packet, Find, LargestOf, Received, Missing, Parity, ParityNumbers, Padded, Repair, Table;
    TableOfFull(t, g, idx, n);
    SurvivorsOfFull(t, g, idx, n);
    ParityOfFull(t, g, idx, n);
    var m, size := |g.payloads|, t.blockSize;
    RepairOriginal(Original(g, size), DecoderModel.Bodies(Table(t, m), size), size, Missing(t.blocks, m),
                   ParityNumbers(t.fecBlocks), DecoderModel.Bodies(t.fecBlocks, size));
  }

  /** The header of a repaired block is that of the first block that arrived. */
  lemma RepairedHeader(t: State, g: Group, idx: seq<nat>, n: nat, i: nat)
    requires Full(t, g, idx, n) && Decodable(t) && t.blocks[0].nBlocks == |g.payloads|
    requires i < |g.payloads| && i !in idx
    ensures RepairedTable(t)[i].(body := []) == Packet(g, idx[0]).(body := [])
  {
    hide Packet, Find, LargestOf, Received, Missing, ParityNumbers, Repair;
    TableOfFull(t, g, idx, n);
    FullFacts(t, g, idx, n);
  }

  // ---------- what is passed on ----------

  /** Each block of the repaired table is passed on as its payload's delivery says. */
  lemma {:induction false} SendableDeliveries(t: State, g: Group, idx: seq<nat>, n: nat, i: nat)
    requires Full(t, g, idx, n) && Decodable(t) && t.blocks[0].nBlocks == |g.payloads| && i <= |g.payloads|
    ensures forall k :: 0 <= k < |Sendable(RepairedTable(t), t.blockSize, i)| ==>
      Sendable(RepairedTable(t), t.blockSize, i)[k].WellFormed()
    ensures Payloads(Sendable(RepairedTable(t), t.blockSize, i)) == Deliveries(g, idx, i)
    decreases |g.payloads| - i
  {
    hide Packet, Decodable, RepairedTable, Delivery, LargestOf, Received;
    assert 2 <= t.blockSize <= Size(g) by { RepairedOfFull(t, g, idx, n); }
    if i < |g.payloads| {
      SendableDeliveries(t, g, idx, n, i + 1);
      OneDelivery(t, g, idx, n, i);
      var r := Sendable(RepairedTable(t), t.blockSize, i + 1);
      if RepairedTable(t)[i].DataLength() <= t.blockSize {
        assert Payloads([RepairedTable(t)[i]] + r) == [PayloadOf(RepairedTable(t)[i])] + Payloads(r);
      }
    }
  }

  lemma OneDelivery(t: State, g: Group, idx: seq<nat>, n: nat, i: nat)
    requires Full(t, g, idx, n) && Decodable(t) && t.blocks[0].nBlocks == |g.payloads| && i < |g.payloads|
    ensures RepairedTable(t)[i].WellFormed() && Survivors(g, idx)
    ensures Delivery(g, idx, i)
         == if RepairedTable(t)[i].DataLength() <= t.blockSize then [PayloadOf(RepairedTable(t)[i])] else []
  {
    hide Packet, Decodable, RepairedTable, LargestOf, Received, Padded;
    RepairedOfFull(t, g, idx, n);
    var b := RepairedTable(t)[i];
    if i in idx {
      DataPacket(g, i);
      FullFacts(t, g, idx, n);
      var k :| 0 <= k < n && idx[..n][k] == i;
      assert |g.payloads[idx[k]]| + 2 <= t.blockSize;
    } else {
      PaddedData(b, g.payloads[i], Size(g), t.blockSize);
    }
  }

  lemma CollectingFull(s: State, before: State, g: Group, idx: seq<nat>, j: nat)
    requires Collecting(s, before, g, idx, j) && j + 1 <= |idx| && idx[j] >= |g.payloads| && j + 1 == |g.payloads|
    ensures var p := Packet(g, idx[j]); var t := Prepared(Counted(s, p), p).(fecBlocks := s.fecBlocks + [p]);
      && Prepared(Counted(s, p), p).blocks == s.blocks && Prepared(Counted(s, p), p).fecBlocks == s.fecBlocks
      && Full(t, g, idx, DataCount(g, idx, j))
      && t.out == before.out + Packets(g)[..Leading(idx, DataCount(g, idx, j))] && t.prevSeq == g.seqNum
  {
    hide Prepared, Packet, LargestOf;
    var p, n := Packet(g, idx[j]), DataCount(g, idx, j);
    LearnedPositive(g, idx, j);
    PacketHeader(g, idx[j]);
    MidGroup(s, p);
    CountSettled(g, idx, j);
    assert Received(g, idx)[n..j + 1] == Received(g, idx)[n..j] + [p];
  }

  /** After the first parity block no data block follows. */
  lemma {:induction false} CountSettled(g: Group, idx: seq<nat>, j: nat)
    requires Survivors(g, idx) && j < |idx| && idx[j] >= |g.payloads|
    ensures DataCount(g, idx, |idx|) == DataCount(g, idx, j)
  {
    CountSettledUpTo(g, idx, j, |idx|);
  }

  lemma {:induction false} CountSettledUpTo(g: Group, idx: seq<nat>, j: nat, k: nat)
    requires Survivors(g, idx) && j < k <= |idx| && idx[j] >= |g.payloads|
    ensures DataCount(g, idx, k) == DataCount(g, idx, j)
    decreases k
  {
    hide DataCount;
    CountStep(g, idx, k - 1);
    if k - 1 > j {
      assert idx[j] < idx[k - 1];
      CountSettledUpTo(g, idx, j, k - 1);
    }
  }

  /** Decoding a full group releases what was held back, repaired. */
  lemma DecodedFull(t: State, g: Group, idx: seq<nat>, n: nat)
    requires Full(t, g, idx, n)
    ensures Decodable(t) && 2 <= t.blockSize && Leading(idx, n) <= |g.payloads| && t.blocks != []
    ensures Decoded(t).out == t.out + Sendable(RepairedTable(t), t.blockSize, Leading(idx, n))
    ensures Decoded(t).prevSeq == t.prevSeq
    ensures Decoded(t).stats.droppedBlocks
         == t.stats.droppedBlocks + |g.payloads| - Leading(idx, n)
            - |Sendable(RepairedTable(t), t.blockSize, Leading(idx, n))|
  {
    hide Packet, RepairedTable, LargestOf, Missing, Sendable, Received;
    FullFacts(t, g, idx, n);
    FullDecodable(t, g, idx, n);
    MissingOfFull(t, g, idx, n);
  }

  lemma FullDelivered(t: State, before: State, g: Group, idx: seq<nat>, n: nat)
    requires Full(t, g, idx, n) && Decodable(t) && t.out == before.out + Packets(g)[..Leading(idx, n)]
    ensures Delivers(Decoded(t).out, before.out, g, idx)
  {
    hide Packet, Decodable, Decoded, RepairedTable, LargestOf, Missing, Sendable, Received;
    assert Groups.WellFormed(g) && Survivors(g, idx) && n <= |idx|;
    hide Full, Payloads, Exactly, Deliveries;
    DecodedFull(t, g, idx, n);
    FullDecodable(t, g, idx, n);
    var l := Leading(idx, n);
    var sent := Sendable(RepairedTable(t), t.blockSize, l);
    SendableDeliveries(t, g, idx, n, l);
    LeadingMeans(g, idx, n);
    LeadingDeliveries(g, idx, l);
    PacketPayloads(g, l);
    PayloadsJoin(Packets(g)[..l], sent);
    assert Decoded(t).out[|before.out|..] == Packets(g)[..l] + sent;
    LaterOnes(Decoded(t).out, |before.out|);
  }

  lemma PayloadsJoin(a: seq<FECBlock>, b: seq<FECBlock>)
    requires (forall i :: 0 <= i < |a| ==> a[i].WellFormed()) && (forall i :: 0 <= i < |b| ==> b[i].WellFormed())
    ensures forall i :: 0 <= i < |a + b| ==> (a + b)[i].WellFormed()
    ensures Payloads(a + b) == Payloads(a) + Payloads(b)
  {
  }

  lemma LaterOnes(out: seq<FECBlock>, n: nat)
    requires n <= |out| && forall i :: 0 <= i < |out| - n ==> out[n..][i].WellFormed()
    ensures forall i :: n <= i < |out| ==> out[i].WellFormed()
  {
    forall i | n <= i < |out|
      ensures out[i].WellFormed()
    {
      assert out[i] == out[n..][i - n];
    }
  }

  /** Enough parity blocks arrived: the group is repaired and delivered. */
  lemma StoreLastParity(s: State, before: State, g: Group, idx: seq<nat>, j: nat)
    requires Collecting(s, before, g, idx, j) && j + 1 <= |idx| && idx[j] >= |g.payloads| && j + 1 == |g.payloads|
    ensures Accepts(s, Packet(g, idx[j])) && GroupDone(Step(s, Packet(g, idx[j])), before, g, idx)
  {
    hide Packet, Decodable, Decoded, Prepared, LargestOf, Deliveries;
    var p, n := Packet(g, idx[j]), DataCount(g, idx, j);
    var q := Prepared(Counted(s, p), p);
    var t := q.(fecBlocks := q.fecBlocks + [p]);
    LearnedPositive(g, idx, j);
    CollectingFull(s, before, g, idx, j);
    DecodedFull(t, g, idx, n);
    FullDelivered(t, before, g, idx, n);
    PacketHeader(g, idx[j]);
  }
}
