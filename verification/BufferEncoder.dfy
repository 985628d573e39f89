/** FECBufferEncoder: cuts a buffer into blocks of nearly equal length. */
module BufferEncoder {
  import opened GF256
  import opened LinearAlgebra
  import opened Blocks
  import opened ErasureCode
  import opened Groups
  import opened EncoderRun
  import opened Encoder
  import opened DecoderRun
  import opened EndToEnd
  import opened LossyRun
  import opened Guarantees
  import SendLoop
  import EncoderModel
  import DecoderModel

  function CeilDiv(a: nat, b: nat): nat
    requires b > 0
  {
    (a + b - 1) / b
  }

  lemma CeilDivMeans(a: nat, b: nat)
    requires b > 0
    ensures a <= CeilDiv(a, b) * b < a + b
  {
  }

  function Concat(parts: seq<vec>): vec
  {
    if parts == [] then [] else Concat(parts[..|parts| - 1]) + parts[|parts| - 1]
  }

  lemma MulMonotonic(a: nat, b: nat, c: nat)
    requires a <= b
    ensures c * a <= c * b
  {
  }

  lemma CancelLess(a: nat, b: nat, c: nat)
    requires a * c < b * c
    ensures a < b
  {
    if b <= a {
      MulMonotonic(b, a, c);
    }
  }

  /** The last of n blocks of ceil(len / n) bytes starts inside the buffer, and no block is longer
      than the maximum. */
  lemma BlocksFit(len: nat, max: nat, n: nat, size: nat)
    requires 0 < max < len && n == CeilDiv(len, max)
    ensures n > 1
    ensures size == CeilDiv(len, n) ==> 0 < size <= max && (n - 1) * size < len <= n * size
  {
    hide CeilDiv;
    CeilDivMeans(len, max);
    CancelLess(1, n, max);
    if size == CeilDiv(len, n) {
      CeilDivMeans(len, n);
      SizeBound(len, max, n, size);
    }
  }

  lemma SizeBound(len: nat, max: nat, n: nat, size: nat)
    requires 0 < len && 1 < n && len <= n * max < len + max && len <= size * n < len + n
    ensures 0 < size <= max && (n - 1) * size < len <= n * size
  {
    assert size * n == n * size;
    assert (size - 1) * n == size * n - n;
    assert n * max == max * n;
    CancelLess(if size > 0 then size - 1 else 0, max, n);
    MulMonotonic(size, max, n - 1);
    assert (n - 1) * max == n * max - max;
  }

  // ---------- slices ----------

  function BlockCount(len: nat, max: nat): nat
    requires max > 0
  {
    if len <= max then 1 else CeilDiv(len, max)
  }

  /** The length of every block but possibly the last. */
  function BlockLength(len: nat, max: nat): nat
    requires max > 0
  {
    if len <= max then len
    else
      BlocksFit(len, max, CeilDiv(len, max), 0);
      CeilDiv(len, CeilDiv(len, max))
  }

  function Min(a: nat, b: nat): nat
  {
    if a < b then a else b
  }

  /** The bytes of block b. */
  function Slice(buf: vec, max: nat, b: nat): (s: vec)
    requires max > 0 && b < BlockCount(|buf|, max)
    ensures |s| <= max && |s| <= BlockLength(|buf|, max)
    ensures buf != [] ==> s != []
    ensures b + 1 < BlockCount(|buf|, max) ==> |s| == BlockLength(|buf|, max)
  {
    SliceBounds(|buf|, max, b);
    var start := b * BlockLength(|buf|, max);
    buf[start..Min(start + BlockLength(|buf|, max), |buf|)]
  }

  /** No block starts behind the end of the buffer, so its length never comes out negative. */
  lemma SliceBounds(len: nat, max: nat, b: nat)
    requires max > 0 && b < BlockCount(len, max)
    ensures var n, size := BlockCount(len, max), BlockLength(len, max);
      && size <= max
      && (0 < len ==> b * size < len && size > 0)
      && (b + 1 < n ==> b * size + size < len)
      && (b + 1 == n ==> b * size <= len <= b * size + size)
  {
    hide CeilDiv;
    var n, size := BlockCount(len, max), BlockLength(len, max);
    if len > max {
      BlocksFit(len, max, n, size);
      MulMonotonic(b, n - 1, size);
      assert size * b == b * size && size * (n - 1) == (n - 1) * size;
      assert (b + 1) * size == b * size + size;
      if b + 1 < n {
        MulMonotonic(b + 1, n - 1, size);
        assert size * (b + 1) == (b + 1) * size;
      }
    }
  }

  function Slices(buf: vec, max: nat): (parts: seq<vec>)
    requires max > 0
    ensures |parts| == BlockCount(|buf|, max)
  {
    seq(BlockCount(|buf|, max), b requires 0 <= b < BlockCount(|buf|, max) => Slice(buf, max, b))
  }

  lemma {:induction false} SlicesPrefix(buf: vec, max: nat, b: nat)
    requires max > 0 && b <= BlockCount(|buf|, max)
    ensures Concat(Slices(buf, max)[..b]) == buf[..Min(b * BlockLength(|buf|, max), |buf|)]
  {
    hide CeilDiv, BlockCount, BlockLength;
    if b > 0 {
      SlicesPrefix(buf, max, b - 1);
      SliceBounds(|buf|, max, b - 1);
      var parts, size := Slices(buf, max), BlockLength(|buf|, max);
      assert parts[..b][..b - 1] == parts[..b - 1];
      assert b * size == (b - 1) * size + size;
    }
  }

  /** The slices are the buffer cut into consecutive pieces. */
  lemma SlicesTile(buf: vec, max: nat)
    requires max > 0
    ensures Concat(Slices(buf, max)) == buf
  {
    hide CeilDiv, BlockCount, BlockLength, Slice, Concat;
    var n := BlockCount(|buf|, max);
    BlockCountPositive(|buf|, max);
    SlicesPrefix(buf, max, n);
    SliceBounds(|buf|, max, n - 1);
    var size := BlockLength(|buf|, max);
    assert n * size == (n - 1) * size + size;
    assert Slices(buf, max)[..n] == Slices(buf, max);
  }

  /** As few blocks as the maximum block size allows, and as short as that many blocks allow. */
  lemma FewestAndShortest(len: nat, max: nat)
    requires max > 0 && len > 0
    ensures var n, size := BlockCount(len, max), BlockLength(len, max);
      && (n - 1) * max < len <= n * max
      && (size - 1) * n < len <= size * n
  {
    hide CeilDiv;
    if len > max {
      var n := CeilDiv(len, max);
      CeilDivMeans(len, max);
      BlocksFit(len, max, n, 0);
      CeilDivMeans(len, n);
      var size := CeilDiv(len, n);
      assert (n - 1) * max == n * max - max;
      assert (size - 1) * n == size * n - n;
    }
  }

  /** Every slice fits a block with room for the maximum block size, its length field included. */
  predicate AllSlicesFit(buf: vec, max: nat)
    requires max > 0
  {
    forall b :: 0 <= b < BlockCount(|buf|, max) ==> |Slice(buf, max, b)| + 2 <= max
  }

  /** Slices are cut without regard to the length field, so not every buffer fits. */
  lemma SlicesFitExactlyWhen(buf: vec, max: nat)
    requires max > 0
    ensures AllSlicesFit(buf, max) <==> BlockLength(|buf|, max) + 2 <= max
  {
    hide BlockLength;
    BlockCountPositive(|buf|, max);
    var first := Slice(buf, max, 0);
    FirstSliceLength(buf, max);
    assert |first| == BlockLength(|buf|, max);
  }

  lemma FirstSliceLength(buf: vec, max: nat)
    requires max > 0
    ensures 0 < BlockCount(|buf|, max) && |Slice(buf, max, 0)| == BlockLength(|buf|, max)
  {
    hide CeilDiv;
    BlockCountPositive(|buf|, max);
    SliceBounds(|buf|, max, 0);
  }

  /** A buffer of exactly the maximum block size does not fit. */
  lemma FullBlockDoesNotFit(buf: vec, max: nat)
    requires 0 < |buf| == max
    ensures BlockCount(|buf|, max) == 1 && !AllSlicesFit(buf, max)
  {
    SlicesFitExactlyWhen(buf, max);
  }

  lemma BlockCountPositive(len: nat, max: nat)
    requires max > 0
    ensures BlockCount(len, max) > 0
  {
    if len > max {
      BlocksFit(len, max, CeilDiv(len, max), 0);
    }
  }

  // ---------- encoding a buffer ----------

  function Adds(parts: seq<vec>): (ops: seq<Op>)
    ensures |ops| == |parts|
  {
    seq(|parts|, i requires 0 <= i < |parts| => Add(parts[i]))
  }

  lemma {:induction false} AddsAdd(parts: seq<vec>)
    ensures AddedPayloads(Adds(parts)) == parts
  {
    if parts != [] {
      var n := |parts| - 1;
      AddsAdd(parts[..n]);
      assert Adds(parts)[..n] == Adds(parts[..n]);
    }
  }

  /** As many payloads as a group holds make exactly one group. */
  lemma {:induction false} OneGroup(start: gf, parts: seq<vec>, n: gf, f: gf, k: nat)
    requires k <= |parts| == n
    ensures PlanRun(start, Adds(parts[..k]), n, f)
         == if k < n || n == 0 then Plan([], parts[..k], start)
            else Plan([Group(start, parts, f)], [], EncoderModel.NextSeq(start))
  {
    if k > 0 {
      OneGroup(start, parts, n, f, k - 1);
      assert Adds(parts[..k])[..k - 1] == Adds(parts[..k - 1]);
      assert parts[..k - 1] + [parts[k - 1]] == parts[..k];
      assert k == n ==> parts[..k] == parts;
    }
  }

  class FECBufferEncoder {
    const maxBlockSize: nat
    var seqNum: gf

    constructor (maxBlockSize: nat)
      ensures this.maxBlockSize == maxBlockSize && seqNum == 1
    {
      this.maxBlockSize, seqNum := maxBlockSize, 1;
    }

    /** The packets of one group that carries the buffer, or without parity blocks the slices one by one;
        none at all if it needs more than 255 blocks. nFecBlocks is the number of parity blocks that
        the FEC ratio asks for. */
    method EncodeBuffer(buf: vec, nFecBlocks: gf) returns (ret: seq<FECBlock>)
      requires 2 <= maxBlockSize <= MAX_BODY
      requires BlockCount(|buf|, maxBlockSize) <= 255 ==> AllSlicesFit(buf, maxBlockSize)
      requires BlockCount(|buf|, maxBlockSize) <= 255 && nFecBlocks > 0 ==>
        BlockCount(|buf|, maxBlockSize) <= LIMIT && nFecBlocks <= LIMIT
      modifies this
      ensures BlockCount(|buf|, maxBlockSize) > 255 ==> ret == [] && seqNum == old(seqNum)
      ensures BlockCount(|buf|, maxBlockSize) <= 255 ==> seqNum == EncoderModel.NextSeq(old(seqNum))
      ensures BlockCount(|buf|, maxBlockSize) <= 255 && nFecBlocks > 0 ==>
        && Groups.WellFormed(Group(old(seqNum), Slices(buf, maxBlockSize), nFecBlocks))
        && ret == Packets(Group(old(seqNum), Slices(buf, maxBlockSize), nFecBlocks))
      ensures BlockCount(|buf|, maxBlockSize) <= 255 && nFecBlocks == 0 ==>
        var parts := Slices(buf, maxBlockSize);
        && |ret| == |parts|
        && (forall k :: 0 <= k < |parts| ==>
              && |parts[k]| + 2 <= maxBlockSize
              && ret[k] == FECBlock(SeqAt(old(seqNum), k), 0, |parts|, 0, Padded(parts[k], maxBlockSize)))
        && (forall i :: 0 <= i < |ret| ==> ret[i].WellFormed() && DecoderModel.NoFec(ret[i]))
        && Payloads(ret) == Exactly(parts)
    {
      hide CeilDiv, Slice, EncoderRun.Run, EncoderModel.AfterAdd, Packets, AllSlicesFit;
      hide AddedPayloads, SeqAt, Padded, PlanRun;
      hide Payloads;
      var len := |buf|;
      var nblocks := CeilDiv(len, maxBlockSize);
      if nblocks > 255 {
        CountAbove(len, maxBlockSize);
        return [];
      }
      var blockSize := BlockLength(len, maxBlockSize);
      nblocks := BlockCount(len, maxBlockSize);
      CountBelow256(len, maxBlockSize);
      BlockCountPositive(len, maxBlockSize);
      SlicesFitExactlyWhen(buf, maxBlockSize);
      ghost var parts := Slices(buf, maxBlockSize);
      var enc := new FECEncoder(nblocks, nFecBlocks, maxBlockSize, seqNum);
      ghost var s := enc.Value();
      seqNum := (seqNum + 1) % 256;
      if seqNum == 0 {
        seqNum := seqNum + 1;
      }
      AddSlices(enc, buf, nblocks, blockSize);
      if nFecBlocks > 0 {
        RunFollows(s, Adds(parts));
        OneGroup(s.seqNum, parts, nblocks, nFecBlocks, nblocks);
        assert parts[..nblocks] == parts;
        OnlyGroup(Group(s.seqNum, parts, nFecBlocks), enc.Value(), EncoderModel.NextSeq(s.seqNum));
      } else {
        PassingRun(s, Adds(parts));
        PassingPackets(s, Adds(parts));
        AddsAdd(parts);
      }
      ret := Drain(enc);
    }

    /** Passes the slices to the encoder one after another. */
    method AddSlices(enc: FECEncoder, buf: vec, nblocks: nat, blockSize: nat)
      requires enc.Ready() && maxBlockSize > 0 && enc.maxBlockSize == maxBlockSize
      requires nblocks == BlockCount(|buf|, maxBlockSize) && blockSize == BlockLength(|buf|, maxBlockSize)
      requires blockSize + 2 <= maxBlockSize
      modifies enc
      ensures enc.Ready()
      ensures enc.Value() == EncoderRun.Run(old(enc.Value()), Adds(Slices(buf, maxBlockSize)))
    {
      hide CeilDiv, BlockCount, BlockLength, Slice, Slices, EncoderRun.Run, EncoderRun.Step;
      ghost var s, parts := enc.Value(), Slices(buf, maxBlockSize);
      SlicesShort(buf, maxBlockSize);
      RunNothing(s, parts);
      for b := 0 to nblocks
        invariant enc.Ready() && enc.Value() == EncoderRun.Run(s, Adds(parts[..b]))
      {
        SliceIs(buf, maxBlockSize, b);
        var start := b * blockSize;
        var end := Min(start + blockSize, |buf|);
        NextRun(s, parts, b);
        SendLoop.AddPayload(enc, buf[start..end]);
      }
      assert parts[..nblocks] == parts;
    }

    /** Pulls all the blocks out of the encoder. */
    method Drain(enc: FECEncoder) returns (ret: seq<FECBlock>)
      modifies enc`outBlocks
      ensures ret == old(enc.outBlocks)
    {
      ret := [];
      var blk := enc.GetBlock();
      while blk.Some?
        invariant ret + (if blk.Some? then [blk.value] + enc.outBlocks else []) == old(enc.outBlocks)
        decreases |enc.outBlocks|, blk.Some?
      {
        ret := ret + [blk.value];
        blk := enc.GetBlock();
      }
    }
  }

  lemma CountAbove(len: nat, max: nat)
    requires max > 0 && CeilDiv(len, max) > 255
    ensures BlockCount(len, max) > 255
  {
  }

  lemma CountBelow256(len: nat, max: nat)
    requires max > 0 && CeilDiv(len, max) <= 255
    ensures BlockCount(len, max) <= 255
  {
  }

  lemma SliceIs(buf: vec, max: nat, b: nat)
    requires max > 0 && b < BlockCount(|buf|, max)
    ensures var start := b * BlockLength(|buf|, max);
      start <= Min(start + BlockLength(|buf|, max), |buf|)
      && Slices(buf, max)[b] == buf[start..Min(start + BlockLength(|buf|, max), |buf|)]
  {
    SliceBounds(|buf|, max, b);
  }

  lemma SlicesShort(buf: vec, max: nat)
    requires max > 0
    ensures forall b :: 0 <= b < |Slices(buf, max)| ==> |Slices(buf, max)[b]| <= BlockLength(|buf|, max)
  {
  }

  lemma RunNothing(s: EncoderModel.State, parts: seq<vec>)
    requires EncoderModel.Valid(s)
    ensures EncoderRun.Run(s, Adds(parts[..0])) == s
  {
  }

  lemma NextRun(s: EncoderModel.State, parts: seq<vec>, b: nat)
    requires EncoderModel.Valid(s) && b < |parts| && forall i :: 0 <= i < |parts| ==> |parts[i]| + 2 <= s.maxBlockSize
    ensures EncoderRun.Run(s, Adds(parts[..b + 1]))
         == EncoderRun.Step(EncoderRun.Run(s, Adds(parts[..b])), Add(parts[b]))
  {
    assert Adds(parts[..b + 1])[..b] == Adds(parts[..b]);
  }

  // ---------- getting the buffer back ----------

  /** Enough of the group of a buffer arrives, and among it a slice that is not the last. */
  predicate EnoughArrives(g: Group, idx: seq<nat>)
  {
    && Survivors(g, idx) && idx != [] && |idx| >= |g.payloads|
    && (idx[0] + 1 < |g.payloads| || idx[0] == 0)
  }

  /** A decoder that is ready for the group of a buffer puts out all its slices and is ready again. */
  lemma BufferRestored(s: DecoderModel.State, buf: vec, max: nat, seqNum: gf, f: gf, idx: seq<nat>)
    requires 0 < max && Groups.WellFormed(Group(seqNum, Slices(buf, max), f))
    requires EnoughArrives(Group(seqNum, Slices(buf, max), f), idx)
    requires Clean(s) && s.prevSeq != seqNum
    ensures var g := Group(seqNum, Slices(buf, max), f);
      && AcceptsAll(s, Received(g, idx))
      && var t := Feed(s, Received(g, idx));
         && Clean(t) && t.prevSeq == seqNum && s.out <= t.out
         && (forall i :: |s.out| <= i < |t.out| ==> t.out[i].WellFormed())
         && Payloads(t.out[|s.out|..]) == Exactly(Slices(buf, max))
    ensures Concat(Slices(buf, max)) == buf
  {
    hide Feed, AcceptsAll, Packet, CeilDiv, BlockCount, BlockLength, Slice, Delivered, DataCount;
    var g := Group(seqNum, Slices(buf, max), f);
    GroupDelivers(s, g, idx);
    BufferDelivered(g, buf, max, idx);
    SlicesTile(buf, max);
  }

  lemma BufferDelivered(g: Group, buf: vec, max: nat, idx: seq<nat>)
    requires 0 < max && Groups.WellFormed(g) && g.payloads == Slices(buf, max) && EnoughArrives(g, idx)
    ensures Delivered(g, idx) == Exactly(Slices(buf, max))
  {
    hide CeilDiv, BlockLength, Slice, Delivered, DataCount;
    LongestArrived(buf, max, g, idx);
    CompleteExactlyWhen(g, idx);
  }

  // ---------- buffer after buffer ----------

  /** Slices of all buffers, one after another. */
  function AllSlices(bufs: seq<vec>, max: nat): seq<vec>
    requires max > 0
  {
    if bufs == [] then [] else AllSlices(bufs[..|bufs| - 1], max) + Slices(bufs[|bufs| - 1], max)
  }

  lemma {:induction false} ConcatAppend(a: seq<vec>, b: seq<vec>)
    ensures Concat(a + b) == Concat(a) + Concat(b)
    decreases |b|
  {
    if b == [] {
      assert a + b == a;
    } else {
      var n := |b| - 1;
      ConcatAppend(a, b[..n]);
      assert (a + b)[..|a + b| - 1] == a + b[..n];
    }
  }

  lemma {:induction false} AllSlicesTile(bufs: seq<vec>, max: nat)
    requires max > 0
    ensures Concat(AllSlices(bufs, max)) == Concat(bufs)
  {
    hide Slices;
    if bufs != [] {
      var n := |bufs| - 1;
      AllSlicesTile(bufs[..n], max);
      SlicesTile(bufs[n], max);
      ConcatAppend(AllSlices(bufs[..n], max), Slices(bufs[n], max));
    }
  }

  /** The k-th burst is what arrives of the group of the k-th buffer; numbers follow one another. */
  predicate SentBuffers(run: seq<Burst>, bufs: seq<vec>, max: nat, start: gf)
    requires max > 0
  {
    && |run| == |bufs|
    && forall k :: 0 <= k < |run| ==>
         && Groups.WellFormed(run[k].group) && run[k].group.payloads == Slices(bufs[k], max)
         && run[k].group.seqNum == SeqAt(start, k) && EnoughArrives(run[k].group, run[k].arrived)
  }

  /** Buffer after buffer through one decoder: it puts out all slices of all buffers, which joined
      together are the buffers. */
  lemma BuffersRestored(run: seq<Burst>, bufs: seq<vec>, max: nat, start: gf)
    requires 0 < max && start != 0 && SentBuffers(run, bufs, max, start)
    ensures AcceptsAll(DecoderModel.INITIAL, Arrivals(run))
    ensures var t := Feed(DecoderModel.INITIAL, Arrivals(run));
      && (forall i :: 0 <= i < |t.out| ==> t.out[i].WellFormed())
      && Payloads(t.out) == Exactly(AllSlices(bufs, max))
    ensures Concat(AllSlices(bufs, max)) == Concat(bufs)
  {
    hide Feed, AcceptsAll, Packet, Slices, Delivered, Arrivals, DeliveredAll, SeqAt, AllSlices;
    forall k | 0 < k < |run|
      ensures LastArrival(run[..k]) == k - 1
    {
      assert run[..k][k - 1].arrived != [];
    }
    NumberedDistinguishable(run, start);
    RunDelivers(run);
    BuffersDelivered(run, bufs, max, start);
    AllSlicesTile(bufs, max);
  }

  lemma {:induction false} BuffersDelivered(run: seq<Burst>, bufs: seq<vec>, max: nat, start: gf)
    requires 0 < max && SentBuffers(run, bufs, max, start)
    ensures DeliveredAll(run) == Exactly(AllSlices(bufs, max))
    decreases |run|
  {
    hide Slices, Delivered, SeqAt, Exactly;
    if run == [] {
      NothingExactly();
    } else {
      var n := |run| - 1;
      BuffersDelivered(run[..n], bufs[..n], max, start);
      BufferDelivered(run[n].group, bufs[n], max, run[n].arrived);
      ExactlyConcat(AllSlices(bufs[..n], max), Slices(bufs[n], max));
    }
  }

  lemma LongestArrived(buf: vec, max: nat, g: Group, idx: seq<nat>)
    requires 0 < max && Groups.WellFormed(g) && g.payloads == Slices(buf, max) && Survivors(g, idx)
    requires EnoughArrives(g, idx)
    ensures RestorableFrom(g, idx, 0)
  {
    hide CeilDiv, BlockCount, BlockLength, Slice, LargestOf;
    var n := DataCount(g, idx, |idx|);
    BlockCountPositive(|buf|, max);
    LearnedPositive(g, idx, |idx|);
    assert idx[..n][0] == idx[0];
    var m := Learned(g, idx, |idx|);
    assert |g.payloads[idx[0]]| + 2 <= m;
    forall i | 0 <= i < |g.payloads|
      ensures Restorable(g, idx, i)
    {
      assert g.payloads[i] == Slice(buf, max, i) && g.payloads[idx[0]] == Slice(buf, max, idx[0]);
      if idx[0] + 1 == BlockCount(|buf|, max) {
        assert i == idx[0];
      }
    }
  }
}
