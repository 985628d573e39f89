/** FECDecoder's reaction to one packet, as a function of its state. */
module DecoderModel {
  import opened GF256
  import opened LinearAlgebra
  import opened GaussJordan
  import opened ErasureCode
  import opened Blocks

  datatype Stats = Stats(totalBlocks: nat, totalPackets: nat, droppedBlocks: nat, droppedPackets: nat, lostSync: nat,
                         bytes: nat)

  /** prev is the last header seen; only its sequence number and block index matter. */
  datatype State = State(blockSize: nat, prevSeq: gf, prevBlock: gf, blocks: seq<FECBlock>, fecBlocks: seq<FECBlock>,
                         out: seq<FECBlock>, stats: Stats)

  const INITIAL := State(0, 0, 0, [], [], [], Stats(0, 0, 0, 0, 0, 0))

  function Unrolled(prev: gf, now: gf): nat
  {
    if prev > now then now + 256 else now
  }

  function Max(a: nat, b: nat): nat
  {
    if a < b then b else a
  }

  predicate NoFec(p: FECBlock)
  {
    p.nBlocks == 0 || p.nFecBlocks == 0
  }

  /** The packet count and byte count go up with every packet. */
  function Counted(s: State, p: FECBlock): State
  {
    s.(stats := s.stats.(totalPackets := s.stats.totalPackets + 1, bytes := s.stats.bytes + p.PktLength()))
  }

  function Seen(s: State, p: FECBlock): State
  {
    s.(prevSeq := p.seqNum, prevBlock := p.block)
  }

  /** Forgets the current group. */
  function Restarted(s: State): State
  {
    s.(blockSize := 0, blocks := [], fecBlocks := [])
  }

  /** A packet of a channel without FEC is passed on at once. */
  function PassOn(s: State, p: FECBlock): State
  {
    var lost := (Unrolled(s.prevSeq, p.seqNum) - s.prevSeq - 1) % 65536;
    var t := s.(stats := s.stats.(droppedPackets := s.stats.droppedPackets + lost,
                                  droppedBlocks := s.stats.droppedBlocks + lost));
    Seen(t, p).(out := s.out + [p])
  }

  /** The running number of packet block of group seqNum. */
  function PacketNumber(seqNum: nat, perGroup: nat, block: nat): nat
  {
    seqNum * perGroup + block
  }

  /** A packet of another group arrives while a group is incomplete. */
  function Abandon(s: State, p: FECBlock): State
  {
    var prev, now := s.prevSeq, Unrolled(s.prevSeq, p.seqNum);
    var perGroup := p.nBlocks + p.nFecBlocks;
    var pbn, bn := PacketNumber(prev, perGroup, s.prevBlock), PacketNumber(now, perGroup, p.block);
    Restarted(s.(stats := s.stats.(droppedBlocks := s.stats.droppedBlocks + (now - prev),
                                   droppedPackets := s.stats.droppedPackets + if pbn < bn then bn - pbn else 0)))
  }

  /** The gap between two packets of one group; a packet that is not newer counts as one drop. */
  function CountGap(s: State, p: FECBlock): State
  {
    var lost := if p.block <= s.prevBlock then 1 else p.block - s.prevBlock - 1;
    s.(stats := s.stats.(droppedPackets := s.stats.droppedPackets + lost))
  }

  /** Everything up to the point where the packet is stored. */
  function Prepared(s: State, p: FECBlock): State
  {
    var a := if s.blockSize == 0 then s else if s.prevSeq != p.seqNum then Abandon(s, p) else CountGap(s, p);
    var b := Seen(a, p);
    if b.blockSize == 0 then b.(stats := b.stats.(droppedPackets := b.stats.droppedPackets + p.block)) else b
  }

  function StoreData(s: State, p: FECBlock): State
    requires p.WellFormed()
  {
    var blocks := s.blocks + [p];
    var t := s.(blockSize := Max(s.blockSize, p.BlockSize()), blocks := blocks,
                out := if |blocks| - 1 == p.block then s.out + [p] else s.out);
    if |blocks| == p.nBlocks then Finished(t) else t
  }

  /** A group is done: start waiting for the next one. */
  function Finished(s: State): State
  {
    Restarted(s.(stats := s.stats.(totalBlocks := s.stats.totalBlocks + 1)))
  }

  // ---------- repairing a group ----------

  /** The stored block with index i, if there is one. */
  function Find(blocks: seq<FECBlock>, i: nat): (k: nat)
    ensures k <= |blocks|
    ensures k < |blocks| ==> blocks[k].block == i
    ensures k == |blocks| ==> forall j :: 0 <= j < |blocks| ==> blocks[j].block != i
  {
    if blocks == [] then 0
    else if blocks[|blocks| - 1].block == i then |blocks| - 1
    else
      var k := Find(blocks[..|blocks| - 1], i);
      if k == |blocks| - 1 then |blocks| else k
  }

  /** The indices below n that no stored block has, in ascending order. */
  function Missing(blocks: seq<FECBlock>, n: nat): (m: seq<nat>)
    ensures Ascending(m, n)
    ensures forall i: nat :: i in m <==> i < n && Find(blocks, i) == |blocks|
  {
    if n == 0 then []
    else Missing(blocks, n - 1) + if Find(blocks, n - 1) == |blocks| then [n - 1] else []
  }

  function ParityNumber(b: FECBlock): nat
  {
    (b.block - b.nBlocks) % 256
  }

  function ParityNumbers(fecBlocks: seq<FECBlock>): (s: seq<nat>)
    ensures |s| == |fecBlocks|
  {
    seq(|fecBlocks|, j requires 0 <= j < |fecBlocks| => ParityNumber(fecBlocks[j]))
  }

  /** What erasure decoding demands: as many parity blocks as missing ones, all of them different
      and all buffers long enough. */
  predicate Decodable(s: State)
  {
    && s.blocks != []
    && 2 <= s.blockSize <= MAX_BODY
    && var n := s.blocks[0].nBlocks;
    && Repairable(n, Missing(s.blocks, n), ParityNumbers(s.fecBlocks))
    && s.fecBlocks != []
    && (forall k :: 0 <= k < |s.blocks| ==> s.blocks[k].block < n && s.blockSize <= |s.blocks[k].body|)
    && (forall j :: 0 <= j < |s.fecBlocks| ==> s.blockSize <= |s.fecBlocks[j].body|)
  }

  /** A block for a missing index: a stored header and room for size bytes, only the length set. */
  function Blank(h: FECBlock, size: nat): FECBlock
    requires 2 <= size <= MAX_BODY
  {
    h.(body := LengthBytes(size - 2) + Zeros(size - 2))
  }

  /** The block at every index below n: the stored one or a blank one. */
  function Table(s: State, n: nat): (t: seq<FECBlock>)
    requires s.blocks != [] && 2 <= s.blockSize <= MAX_BODY
    ensures |t| == n
  {
    seq(n, i requires 0 <= i < n =>
      if Find(s.blocks, i) < |s.blocks| then s.blocks[Find(s.blocks, i)] else Blank(s.blocks[0], s.blockSize))
  }

  /** The first size bytes of every block. */
  function Bodies(t: seq<FECBlock>, size: nat): (d: seq<vec>)
    requires forall i :: 0 <= i < |t| ==> size <= |t[i].body|
    ensures |d| == |t| && forall i :: 0 <= i < |d| ==> |d[i]| == size
  {
    seq(|t|, i requires 0 <= i < |t| => t[i].body[..size])
  }

  /** The table with the repaired bytes in the blank blocks. */
  ghost function RepairedTable(s: State): (t: seq<FECBlock>)
    requires Decodable(s)
    ensures |t| == s.blocks[0].nBlocks && forall i :: 0 <= i < |t| ==> s.blockSize <= |t[i].body|
  {
    var n := s.blocks[0].nBlocks;
    var t := Table(s, n);
    var d := Repair(Bodies(t, s.blockSize), s.blockSize, Missing(s.blocks, n), ParityNumbers(s.fecBlocks),
                    Bodies(s.fecBlocks, s.blockSize));
    seq(n, i requires 0 <= i < n => if Find(s.blocks, i) < |s.blocks| then t[i] else t[i].(body := d[i]))
  }

  /** The blocks from index i on that are passed on: those whose length is not beyond the block size. */
  function Sendable(t: seq<FECBlock>, size: nat, i: nat): (r: seq<FECBlock>)
    requires 2 <= size && forall i :: 0 <= i < |t| ==> size <= |t[i].body|
    ensures i <= |t| ==> |r| <= |t| - i
    decreases |t| - i
  {
    if i >= |t| then [] else (if t[i].DataLength() <= size then [t[i]] else []) + Sendable(t, size, i + 1)
  }

  ghost function Decoded(s: State): State
    requires Decodable(s)
  {
    var n := s.blocks[0].nBlocks;
    if n > |s.blocks| + |s.fecBlocks| then s.(stats := s.stats.(lostSync := s.stats.lostSync + 1))
    else if NoFec(s.blocks[0]) then s
    else Released(s, RepairedTable(s), Missing(s.blocks, n)[0])
  }

  /** Passes on the blocks of t from index first on; the others count as dropped. */
  function Released(s: State, t: seq<FECBlock>, first: nat): State
    requires 2 <= s.blockSize && first <= |t| && forall i :: 0 <= i < |t| ==> s.blockSize <= |t[i].body|
  {
    var sent := Sendable(t, s.blockSize, first);
    s.(out := s.out + sent,
       stats := s.stats.(droppedBlocks := s.stats.droppedBlocks + (|t| - first - |sent|)))
  }

  /** Storing parity block p completes the group. */
  predicate Completes(s: State, p: FECBlock)
  {
    |s.blocks| + |s.fecBlocks| + 1 == p.nBlocks
  }

  ghost function StoreParity(s: State, p: FECBlock): State
    requires Completes(s, p) ==> s.blocks == [] || Decodable(s.(fecBlocks := s.fecBlocks + [p]))
  {
    var t := s.(fecBlocks := s.fecBlocks + [p]);
    if !Completes(s, p) then t
    else if s.blocks == [] then Finished(t)
    else Finished(Decoded(t))
  }

  // ---------- one packet ----------

  /** A further packet of a group that is already complete. */
  predicate Ignored(s: State, p: FECBlock)
  {
    s.blockSize == 0 && s.prevSeq == p.seqNum
  }

  /** If this packet makes the decoder repair a group, the group can be decoded. */
  predicate Accepts(s: State, p: FECBlock)
  {
    && p.WellFormed()
    && (!NoFec(p) && !Ignored(s, p) && !p.IsData() ==>
        var q := Prepared(Counted(s, p), p);
        Completes(q, p) ==> q.blocks == [] || Decodable(q.(fecBlocks := q.fecBlocks + [p])))
  }

  ghost function Step(s: State, p: FECBlock): State
    requires Accepts(s, p)
  {
    var c := Counted(s, p);
    if NoFec(p) then PassOn(c, p)
    else if Ignored(s, p) then Seen(c, p)
    else if p.IsData() then StoreData(Prepared(c, p), p)
    else StoreParity(Prepared(c, p), p)
  }
}
