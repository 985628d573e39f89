/** Groups of packets as they go over the air, and what survives of them. */
module Groups {
  import opened GF256
  import opened LinearAlgebra
  import opened ErasureCode
  import opened Wrappers
  import opened Blocks

  datatype Group = Group(seqNum: gf, payloads: seq<vec>, nFec: gf)

  predicate WellFormed(g: Group)
  {
    && 1 <= |g.payloads| <= LIMIT
    && 1 <= g.nFec <= LIMIT
    && forall i :: 0 <= i < |g.payloads| ==> |g.payloads[i]| + 2 <= MAX_BODY
  }

  /** The longest of the payloads that the indices below n pick, counted with its length field. */
  function LargestOf(payloads: seq<vec>, picks: seq<nat>): (m: nat)
    requires forall k :: 0 <= k < |picks| ==> picks[k] < |payloads|
    ensures forall k :: 0 <= k < |picks| ==> |payloads[picks[k]]| + 2 <= m
    ensures picks == [] ==> m == 0
    ensures picks != [] ==> exists k :: 0 <= k < |picks| && m == |payloads[picks[k]]| + 2
  {
    if picks == [] then 0
    else
      var n := |picks| - 1;
      var m := LargestOf(payloads, picks[..n]);
      var l := |payloads[picks[n]]| + 2;
      if m < l then l else m
  }

  function UpTo(n: nat): (s: seq<nat>)
    ensures |s| == n && forall i :: 0 <= i < n ==> s[i] == i
  {
    seq(n, i requires 0 <= i < n => i)
  }

  /** The block size of the group: room for its longest payload and the length field. */
  function Size(g: Group): (size: nat)
    requires WellFormed(g)
    ensures 2 <= size <= MAX_BODY
    ensures forall i :: 0 <= i < |g.payloads| ==> |g.payloads[i]| + 2 <= size
  {
    SizeBounds(g);
    LargestOf(g.payloads, UpTo(|g.payloads|))
  }

  lemma SizeBounds(g: Group)
    requires WellFormed(g)
    ensures 2 <= LargestOf(g.payloads, UpTo(|g.payloads|)) <= MAX_BODY
    ensures forall i :: 0 <= i < |g.payloads| ==> |g.payloads[i]| + 2 <= LargestOf(g.payloads, UpTo(|g.payloads|))
  {
    hide LargestOf;
    var picks := UpTo(|g.payloads|);
    var m := LargestOf(g.payloads, picks);
    forall i | 0 <= i < |g.payloads|
      ensures |g.payloads[i]| + 2 <= m
    {
      assert picks[i] == i;
    }
  }

  function Bodies(g: Group): (d: seq<vec>)
    requires WellFormed(g)
    ensures Stripe(d, Size(g)) && |d| == |g.payloads|
  {
    seq(|g.payloads|, i requires 0 <= i < |g.payloads| => Padded(g.payloads[i], Size(g)))
  }

  /** Packet k of the group: the data blocks come first, then the parity blocks. */
  ghost function Packet(g: Group, k: nat): (p: FECBlock)
    requires WellFormed(g) && k < |g.payloads| + g.nFec
    ensures p.WellFormed() && |p.body| == Size(g)
  {
    var m := |g.payloads|;
    FECBlock(g.seqNum, k, m, g.nFec, if k < m then Bodies(g)[k] else Parity(Bodies(g), Size(g), k - m))
  }

  ghost function Packets(g: Group): (ps: seq<FECBlock>)
    requires WellFormed(g)
    ensures |ps| == |g.payloads| + g.nFec
  {
    seq(|g.payloads| + g.nFec, k requires 0 <= k < |g.payloads| + g.nFec => Packet(g, k))
  }

  // ---------- what survives ----------

  /** Indices of the packets of a group that arrive, in order. */
  predicate Survivors(g: Group, idx: seq<nat>)
  {
    Ascending(idx, |g.payloads| + g.nFec)
  }

  ghost function Received(g: Group, idx: seq<nat>): (ps: seq<FECBlock>)
    requires WellFormed(g) && Survivors(g, idx)
    ensures |ps| == |idx|
  {
    seq(|idx|, j requires 0 <= j < |idx| => Packet(g, idx[j]))
  }

  /** How many of the first j survivors are data blocks. */
  function DataCount(g: Group, idx: seq<nat>, j: nat): (n: nat)
    requires Survivors(g, idx) && j <= |idx|
    ensures n <= j && n <= |g.payloads|
    ensures forall k :: 0 <= k < n ==> idx[k] < |g.payloads|
    ensures forall k :: n <= k < j ==> idx[k] >= |g.payloads|
  {
    if j == 0 then 0
    else
      var n := DataCount(g, idx, j - 1);
      if idx[j - 1] < |g.payloads| then AscendingBound(idx, |g.payloads| + g.nFec, j - 1); j else n
  }

  /** The k-th smallest index is at least k. */
  lemma {:induction false} AscendingBound(idx: seq<nat>, n: nat, k: nat)
    requires Ascending(idx, n) && k < |idx|
    ensures k <= idx[k]
  {
    if k > 0 {
      AscendingBound(idx, n, k - 1);
    }
  }

  /** How many data blocks arrived before the first gap. */
  function Leading(idx: seq<nat>, n: nat): (r: nat)
    requires n <= |idx|
    ensures r <= n
  {
    if n == 0 then 0 else if idx[n - 1] == n - 1 then n else Leading(idx, n - 1)
  }

  lemma {:induction false} LeadingMeans(g: Group, idx: seq<nat>, n: nat)
    requires Survivors(g, idx) && n <= |idx|
    ensures forall k :: 0 <= k < Leading(idx, n) ==> idx[k] == k
    ensures Leading(idx, n) < n ==> idx[Leading(idx, n)] > Leading(idx, n)
  {
    if n > 0 {
      AscendingBound(idx, |g.payloads| + g.nFec, n - 1);
      LeadingMeans(g, idx, n - 1);
      if idx[n - 1] == n - 1 {
        forall k | 0 <= k < n
          ensures idx[k] == k
        {
          LeadingFull(idx, |g.payloads| + g.nFec, n, k);
        }
      }
    }
  }

  lemma {:induction false} LeadingFull(idx: seq<nat>, n: nat, q: nat, k: nat)
    requires Ascending(idx, n) && k < q <= |idx| && idx[q - 1] == q - 1
    ensures idx[k] == k
    decreases q - k
  {
    AscendingBound(idx, n, k);
    if k + 1 < q {
      LeadingFull(idx, n, q, k + 1);
    }
  }

  /** The block size the decoder learns: that of the largest data block among the first j survivors. */
  function Learned(g: Group, idx: seq<nat>, j: nat): nat
    requires Survivors(g, idx) && j <= |idx|
  {
    LargestOf(g.payloads, idx[..DataCount(g, idx, j)])
  }

  // ---------- what the receiver gets out of a group ----------

  /** The data of each block; nothing for a block that is shorter than its length field says. */
  function Payloads(bs: seq<FECBlock>): (r: seq<Option<vec>>)
    requires forall i :: 0 <= i < |bs| ==> bs[i].WellFormed()
    ensures |r| == |bs|
  {
    seq(|bs|, i requires 0 <= i < |bs| => PayloadOf(bs[i]))
  }

  function PayloadOf(b: FECBlock): Option<vec>
    requires b.WellFormed()
  {
    if b.Complete() then Some(b.Data()) else None
  }

  /** What comes out for payload i of a repaired group: the payload itself if its block survived or
      fits the learned size, nothing if its length is beyond that size, and in between (by one or
      two bytes) a block that lacks the last bytes. */
  function Delivery(g: Group, idx: seq<nat>, i: nat): seq<Option<vec>>
    requires Survivors(g, idx) && i < |g.payloads|
  {
    var m, l := Learned(g, idx, |idx|), |g.payloads[i]|;
    if i in idx || l + 2 <= m then [Some(g.payloads[i])]
    else if l <= m then [None]
    else []
  }

  function Deliveries(g: Group, idx: seq<nat>, i: nat): seq<Option<vec>>
    requires Survivors(g, idx) && i <= |g.payloads|
    decreases |g.payloads| - i
  {
    if i == |g.payloads| then [] else Delivery(g, idx, i) + Deliveries(g, idx, i + 1)
  }

  function Delivered(g: Group, idx: seq<nat>): seq<Option<vec>>
    requires Survivors(g, idx)
  {
    if |idx| >= |g.payloads| then Deliveries(g, idx, 0)
    else Exactly(g.payloads[..Leading(idx, DataCount(g, idx, |idx|))])
  }

  function Exactly(payloads: seq<vec>): (r: seq<Option<vec>>)
    ensures |r| == |payloads|
  {
    seq(|payloads|, i requires 0 <= i < |payloads| => Some(payloads[i]))
  }
}
