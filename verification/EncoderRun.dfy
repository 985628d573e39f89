/** Whole runs of the encoder: which groups a sequence of payloads and flushes turns into. */
module EncoderRun {
  import opened GF256
  import opened LinearAlgebra
  import opened ErasureCode
  import opened Blocks
  import opened Groups
  import opened EncoderModel

  datatype Op = Add(payload: vec) | Flush

  /** The caller copies the payload into the data area of the block it got. */
  function Loaded(b: FECBlock, payload: vec): FECBlock
    requires |payload| + 2 <= |b.body|
  {
    b.(body := b.body[..2] + payload + b.body[2 + |payload|..])
  }

  predicate Sendable(op: Op, maxBlockSize: nat)
  {
    op.Add? ==> |op.payload| + 2 <= maxBlockSize
  }

  lemma LoadedBody(s: State, payload: vec)
    requires EncoderModel.Valid(s) && |payload| + 2 <= s.maxBlockSize
    ensures Loaded(FreshBlock(s, |payload|), payload).body == Padded(payload, s.maxBlockSize)
    ensures Fits(Loaded(FreshBlock(s, |payload|), payload), s.maxBlockSize)
  {
    var b := Loaded(FreshBlock(s, |payload|), payload);
    assert b.body == Padded(payload, s.maxBlockSize)[..s.maxBlockSize];
    PaddedData(b, payload, s.maxBlockSize, s.maxBlockSize);
  }

  ghost function Step(s: State, op: Op): (t: State)
    requires EncoderModel.Valid(s) && Sendable(op, s.maxBlockSize)
    ensures EncoderModel.Valid(t) && SameLimits(s, t)
  {
    match op
    case Add(payload) =>
      LoadedBody(s, payload);
      AddKeepsValid(s, Loaded(FreshBlock(s, |payload|), payload));
      AfterAdd(s, Loaded(FreshBlock(s, |payload|), payload))
    case Flush =>
      FlushKeepsValid(s);
      AfterEncode(s)
  }

  ghost function Run(s: State, ops: seq<Op>): (t: State)
    requires EncoderModel.Valid(s) && forall k :: 0 <= k < |ops| ==> Sendable(ops[k], s.maxBlockSize)
    ensures EncoderModel.Valid(t) && SameLimits(s, t)
  {
    if ops == [] then s else Step(Run(s, ops[..|ops| - 1]), ops[|ops| - 1])
  }

  // ---------- the groups that should come out ----------

  /** Groups that are closed and payloads that wait for their group to be closed. */
  datatype Plan = Plan(groups: seq<Group>, pending: seq<vec>, seqNum: gf)

  function Close(p: Plan, f: gf): Plan
  {
    if p.pending == [] then p
    else Plan(p.groups + [Group(p.seqNum, p.pending, f)], [], NextSeq(p.seqNum))
  }

  function PlanStep(p: Plan, op: Op, n: gf, f: gf): Plan
  {
    match op
    case Add(payload) =>
      var q := p.(pending := p.pending + [payload]);
      if |q.pending| == n then Close(q, f) else q
    case Flush => Close(p, f)
  }

  function PlanRun(start: gf, ops: seq<Op>, n: gf, f: gf): Plan
  {
    if ops == [] then Plan([], [], start) else PlanStep(PlanRun(start, ops[..|ops| - 1], n, f), ops[|ops| - 1], n, f)
  }

  ghost function AllPackets(groups: seq<Group>): seq<FECBlock>
    requires forall k :: 0 <= k < |groups| ==> Groups.WellFormed(groups[k])
  {
    if groups == [] then [] else AllPackets(groups[..|groups| - 1]) + Packets(groups[|groups| - 1])
  }

  /** The blocks that hold the pending payloads. */
  function Waiting(seqNum: gf, payloads: seq<vec>, n: gf, f: gf, maxBlockSize: nat): (ins: seq<FECBlock>)
    requires |payloads| < 256 && maxBlockSize <= MAX_BODY
    requires forall i :: 0 <= i < |payloads| ==> |payloads[i]| + 2 <= maxBlockSize
    ensures |ins| == |payloads|
  {
    seq(|payloads|, i requires 0 <= i < |payloads| => FECBlock(seqNum, i, n, f, Padded(payloads[i], maxBlockSize)))
  }

  // ---------- closing a group ----------

  lemma PaddedPrefix(payload: vec, size: nat, max: nat)
    requires |payload| + 2 <= size <= max <= MAX_BODY
    ensures Padded(payload, max)[..size] == Padded(payload, size)
  {
  }

  lemma WaitingBlock(seqNum: gf, payloads: seq<vec>, n: gf, f: gf, max: nat, k: nat)
    requires k < |payloads| < 256 && max <= MAX_BODY
    requires forall i :: 0 <= i < |payloads| ==> |payloads[i]| + 2 <= max
    ensures var b := Waiting(seqNum, payloads, n, f, max)[k];
      b.body == Padded(payloads[k], max) && b.WellFormed() && b.BlockSize() == |payloads[k]| + 2
  {
    hide Padded;
    var b := Waiting(seqNum, payloads, n, f, max)[k];
    assert b.body == Padded(payloads[k], max)[..max];
    PaddedData(b, payloads[k], max, max);
  }

  lemma {:induction false} LargestWaiting(w: seq<FECBlock>, payloads: seq<vec>, k: nat)
    requires k <= |payloads| == |w|
    requires forall i :: 0 <= i < |w| ==> w[i].WellFormed() && w[i].BlockSize() == |payloads[i]| + 2
    ensures MaxSize(w[..k]) == LargestOf(payloads, UpTo(k))
  {
    if k > 0 {
      LargestWaiting(w, payloads, k - 1);
      assert w[..k][..k - 1] == w[..k - 1];
      assert UpTo(k)[..k - 1] == UpTo(k - 1);
    }
  }

  /** Encoding the pending blocks puts out the packets of their group. */
  lemma ClosingGroup(s: State, payloads: seq<vec>)
    requires Encodable(s) && 0 < |payloads| <= LIMIT && 0 < s.numFecBlocks <= LIMIT
    requires forall i :: 0 <= i < |payloads| ==> |payloads[i]| + 2 <= s.maxBlockSize
    requires s.ins == Waiting(s.seqNum, payloads, s.numBlocks, s.numFecBlocks, s.maxBlockSize)
    ensures var g := Group(s.seqNum, payloads, s.numFecBlocks);
      Groups.WellFormed(g) && AfterEncode(s) == s.(out := s.out + Packets(g), seqNum := NextSeq(s.seqNum), ins := [])
  {
    hide Parity, LargestOf, MaxSize, Padded, Waiting, Groups.Bodies, Packet, Packets;
    var g := Group(s.seqNum, payloads, s.numFecBlocks);
    var m, size := |payloads|, Size(g);
    forall k | 0 <= k < m
      ensures s.ins[k].WellFormed() && s.ins[k].BlockSize() == |payloads[k]| + 2
    {
      WaitingBlock(s.seqNum, payloads, s.numBlocks, s.numFecBlocks, s.maxBlockSize, k);
    }
    LargestWaiting(s.ins, payloads, m);
    assert s.ins[..m] == s.ins;
    assert MaxSize(s.ins) == size;
    SizeFits(s);
    ClosingPackets(s, g, size);
  }

  lemma ClosingPackets(s: State, g: Group, size: nat)
    requires Groups.WellFormed(g) && size == Size(g) <= s.maxBlockSize <= MAX_BODY
    requires forall i :: 0 <= i < |g.payloads| ==> |g.payloads[i]| + 2 <= s.maxBlockSize
    requires s.ins == Waiting(g.seqNum, g.payloads, s.numBlocks, g.nFec, s.maxBlockSize)
    ensures forall i :: 0 <= i < |s.ins| ==> size <= |s.ins[i].body|
    ensures var data := DataBlocks(s.ins, size);
      Stripe(BlockBodies(data), size) && data + ParityBlocks(g.seqNum, BlockBodies(data), size, g.nFec) == Packets(g)
  {
    hide Parity, LargestOf, Padded;
    var data := DataBlocks(s.ins, size);
    forall i | 0 <= i < |g.payloads|
      ensures data[i] == Packet(g, i)
    {
      PaddedPrefix(g.payloads[i], size, s.maxBlockSize);
    }
    assert BlockBodies(data) == Groups.Bodies(g);
  }

  // ---------- whole runs ----------

  /** The encoder's state is what the plan says. */
  ghost predicate Follows(s: State, p: Plan)
  {
    && EncoderModel.Valid(s) && !Passing(s)
    && s.seqNum == p.seqNum
    && |p.pending| < s.numBlocks
    && (forall i :: 0 <= i < |p.pending| ==> |p.pending[i]| + 2 <= s.maxBlockSize)
    && s.ins == Waiting(p.seqNum, p.pending, s.numBlocks, s.numFecBlocks, s.maxBlockSize)
    && (forall k :: 0 <= k < |p.groups| ==> Groups.WellFormed(p.groups[k]))
    && s.out == AllPackets(p.groups)
  }

  /** The payloads wait for their group to be closed. */
  predicate IsPending(s: State, payloads: seq<vec>)
  {
    && EncoderModel.Valid(s) && !Passing(s) && |payloads| < s.numBlocks
    && (forall i :: 0 <= i < |payloads| ==> |payloads[i]| + 2 <= s.maxBlockSize)
    && s.ins == Waiting(s.seqNum, payloads, s.numBlocks, s.numFecBlocks, s.maxBlockSize)
  }

  lemma StepFollows(s: State, p: Plan, op: Op)
    requires Follows(s, p) && Sendable(op, s.maxBlockSize)
    ensures Follows(Step(s, op), PlanStep(p, op, s.numBlocks, s.numFecBlocks))
  {
    hide Packets, Padded, AfterEncode;
    match op
    case Add(payload) =>
      LoadedBody(s, payload);
      var b := Loaded(FreshBlock(s, |payload|), payload);
      var q := p.pending + [payload];
      var t := s.(ins := s.ins + [b.(block := |s.ins| % 256)]);
      assert t.ins == Waiting(p.seqNum, q, s.numBlocks, s.numFecBlocks, s.maxBlockSize);
      if |q| == s.numBlocks {
        CloseFollows(t, p.(pending := q));
      }
    case Flush =>
      if p.pending == [] {
        assert AfterEncode(s) == s by { EncodeNothing(s); }
      } else {
        CloseFollows(s, p);
      }
  }

  /** Without FEC a payload goes out at once, in a packet of its own that is not cut. */
  lemma PassingAdd(s: State, payload: vec)
    requires EncoderModel.Valid(s) && Passing(s) && |payload| + 2 <= s.maxBlockSize
    ensures Step(s, Add(payload)) == s.(
      out := s.out + [FECBlock(s.seqNum, 0, s.numBlocks, s.numFecBlocks, Padded(payload, s.maxBlockSize))],
      seqNum := NextSeq(s.seqNum))
  {
    LoadedBody(s, payload);
  }

  /** What one payload or flush does with FEC, told by the payloads that wait: a flush closes their group,
      a payload joins them and closes the group when it is full. */
  lemma PendingStep(s: State, payloads: seq<vec>, op: Op)
    requires IsPending(s, payloads) && s.out == [] && Sendable(op, s.maxBlockSize)
    ensures var t := Step(s, op);
      var group := if op.Add? then payloads + [op.payload] else payloads;
      if group != [] && (op.Flush? || |group| == s.numBlocks) then
        && Groups.WellFormed(Group(s.seqNum, group, s.numFecBlocks))
        && t.ins == [] && t.out == Packets(Group(s.seqNum, group, s.numFecBlocks)) && t.seqNum == NextSeq(s.seqNum)
      else IsPending(t, group) && t.out == [] && t.seqNum == s.seqNum
  {
    var group := if op.Add? then payloads + [op.payload] else payloads;
    NoPackets();
    hide Packets, Step, Waiting, AllPackets, Padded, EncoderModel.Valid;
    StepFollows(s, Plan([], payloads, s.seqNum), op);
    if group != [] && (op.Flush? || |group| == s.numBlocks) {
      var g := Group(s.seqNum, group, s.numFecBlocks);
      assert PlanStep(Plan([], payloads, s.seqNum), op, s.numBlocks, s.numFecBlocks)
          == Plan([g], [], NextSeq(s.seqNum));
      OnlyGroup(g, Step(s, op), NextSeq(s.seqNum));
    } else {
      assert PlanStep(Plan([], payloads, s.seqNum), op, s.numBlocks, s.numFecBlocks) == Plan([], group, s.seqNum);
    }
  }

  lemma NoPackets()
    ensures AllPackets([]) == []
  {
  }

  lemma OnlyGroup(g: Group, s: State, seqNum: gf)
    requires Follows(s, Plan([g], [], seqNum))
    ensures Groups.WellFormed(g) && s.out == Packets(g) && s.ins == []
  {
    var groups := [g];
    assert Groups.WellFormed(groups[0]) && groups[..0] == [];
    assert AllPackets([]) == [];
    assert AllPackets(groups) == AllPackets(groups[..0]) + Packets(g);
  }

  lemma EncodeNothing(s: State)
    requires Encodable(s) && s.ins == []
    ensures AfterEncode(s) == s
  {
  }

  lemma CloseFollows(s: State, p: Plan)
    requires Encodable(s) && !Passing(s) && s.numBlocks <= LIMIT && 0 < |p.pending| <= LIMIT
    requires s.seqNum == p.seqNum
    requires forall i :: 0 <= i < |p.pending| ==> |p.pending[i]| + 2 <= s.maxBlockSize
    requires s.ins == Waiting(p.seqNum, p.pending, s.numBlocks, s.numFecBlocks, s.maxBlockSize)
    requires (forall k :: 0 <= k < |p.groups| ==> Groups.WellFormed(p.groups[k])) && s.out == AllPackets(p.groups)
    ensures Follows(AfterEncode(s), Close(p, s.numFecBlocks))
  {
    hide Packets, Padded, AfterEncode;
    ClosingGroup(s, p.pending);
    var q := Close(p, s.numFecBlocks);
    assert q.groups[..|q.groups| - 1] == p.groups;
  }

  /** Every run of payloads and flushes puts out exactly the packets of its planned groups. */
  lemma {:induction false} RunFollows(s: State, ops: seq<Op>)
    requires EncoderModel.Valid(s) && !Passing(s) && s.ins == [] && s.out == []
    requires forall k :: 0 <= k < |ops| ==> Sendable(ops[k], s.maxBlockSize)
    ensures Follows(Run(s, ops), PlanRun(s.seqNum, ops, s.numBlocks, s.numFecBlocks))
  {
    hide Step, PlanStep;
    if ops == [] {
      assert Waiting(s.seqNum, [], s.numBlocks, s.numFecBlocks, s.maxBlockSize) == [];
    } else {
      RunFollows(s, ops[..|ops| - 1]);
      StepFollows(Run(s, ops[..|ops| - 1]), PlanRun(s.seqNum, ops[..|ops| - 1], s.numBlocks, s.numFecBlocks),
                  ops[|ops| - 1]);
    }
  }

  // ---------- what the groups contain ----------

  function AddedPayloads(ops: seq<Op>): seq<vec>
  {
    if ops == [] then []
    else AddedPayloads(ops[..|ops| - 1]) + match ops[|ops| - 1] case Add(p) => [p] case Flush => []
  }

  function GroupPayloads(groups: seq<Group>): seq<vec>
  {
    if groups == [] then [] else GroupPayloads(groups[..|groups| - 1]) + groups[|groups| - 1].payloads
  }

  /** The sequence number of the k-th group of a run, counted from 0. */
  function SeqAt(start: gf, k: nat): gf
  {
    if k == 0 then start else NextSeq(SeqAt(start, k - 1))
  }

  /** Payloads are neither lost, nor repeated, nor reordered on their way into the groups. */
  lemma {:induction false} PlanConserves(start: gf, ops: seq<Op>, n: gf, f: gf)
    ensures GroupPayloads(PlanRun(start, ops, n, f).groups) + PlanRun(start, ops, n, f).pending == AddedPayloads(ops)
  {
    hide PlanStep, GroupPayloads;
    if ops != [] {
      PlanConserves(start, ops[..|ops| - 1], n, f);
      StepConserves(PlanRun(start, ops[..|ops| - 1], n, f), ops[|ops| - 1], n, f);
    } else {
      NoGroups();
    }
  }

  lemma NoGroups()
    ensures GroupPayloads([]) == []
  {
  }

  lemma StepConserves(p: Plan, op: Op, n: gf, f: gf)
    ensures var q := PlanStep(p, op, n, f);
      GroupPayloads(q.groups) + q.pending
      == GroupPayloads(p.groups) + p.pending + match op case Add(x) => [x] case Flush => []
  {
    hide GroupPayloads, Close;
    CloseConserves(p, f);
    if op.Add? {
      CloseConserves(p.(pending := p.pending + [op.payload]), f);
    }
  }

  lemma CloseConserves(p: Plan, f: gf)
    ensures GroupPayloads(Close(p, f).groups) + Close(p, f).pending == GroupPayloads(p.groups) + p.pending
  {
    if p.pending != [] {
      var g := Close(p, f).groups;
      assert g[..|g| - 1] == p.groups;
    }
  }

  /** How many payloads came since the last flush. */
  function SinceFlush(ops: seq<Op>): nat
  {
    if ops == [] || ops[|ops| - 1].Flush? then 0 else SinceFlush(ops[..|ops| - 1]) + 1
  }

  /** A group is closed by a flush or when it has n payloads, never before. */
  lemma {:induction false} PendingExactly(start: gf, ops: seq<Op>, n: gf, f: gf)
    requires n > 0
    ensures |PlanRun(start, ops, n, f).pending| == SinceFlush(ops) % n
  {
    hide PlanStep;
    if ops == [] {
      ZeroModulo(n);
    } else {
      PendingExactly(start, ops[..|ops| - 1], n, f);
      PendingNext(PlanRun(start, ops[..|ops| - 1], n, f), ops[|ops| - 1], n, f);
      ModNext(SinceFlush(ops[..|ops| - 1]), n);
      ZeroModulo(n);
    }
  }

  lemma PendingNext(p: Plan, op: Op, n: gf, f: gf)
    ensures |PlanStep(p, op, n, f).pending| == if op.Flush? || |p.pending| + 1 == n then 0 else |p.pending| + 1
  {
  }

  lemma ZeroModulo(n: nat)
    requires n > 0
    ensures 0 % n == 0
  {
  }

  lemma ModNext(a: nat, n: nat)
    requires n > 0
    ensures (a + 1) % n == if a % n + 1 == n then 0 else a % n + 1
  {
    var q, m := a / n, a % n;
    assert q * n + m == a;
    if m + 1 == n {
      assert (q + 1) * n == q * n + n;
      ModUnique(a + 1, n, q + 1, 0);
    } else {
      ModUnique(a + 1, n, q, m + 1);
    }
  }

  lemma ModUnique(a: nat, n: nat, q: nat, r: nat)
    requires r < n && a == q * n + r
    ensures a % n == r
  {
    var p, m := a / n, a % n;
    assert p * n + m == a;
    assert (q - p) * n == q * n - p * n;
    NoMultiple(q - p, n, m - r);
  }

  /** A multiple of n that lies strictly between -n and n is 0. */
  lemma NoMultiple(d: int, n: nat, x: int)
    requires d * n == x && x < n && 0 < x + n
    ensures x == 0
  {
    NotNegative(d - 1, n);
    NotNegative(-d - 1, n);
    assert d * n == (d - 1) * n + n && (-d - 1) * n == -(d * n) - n;
  }

  lemma NotNegative(a: int, n: nat)
    ensures a >= 0 ==> a * n >= 0
  {
  }

  /** Groups of 1 to n payloads, numbered one after another. */
  predicate Numbered(p: Plan, start: gf, n: gf, f: gf)
  {
    && |p.pending| < n
    && p.seqNum == SeqAt(start, |p.groups|)
    && forall k :: 0 <= k < |p.groups| ==>
         1 <= |p.groups[k].payloads| <= n && p.groups[k].nFec == f && p.groups[k].seqNum == SeqAt(start, k)
  }

  lemma {:induction false} PlanNumbers(start: gf, ops: seq<Op>, n: gf, f: gf)
    requires n > 0
    ensures Numbered(PlanRun(start, ops, n, f), start, n, f)
  {
    if ops != [] {
      PlanNumbers(start, ops[..|ops| - 1], n, f);
      StepNumbers(PlanRun(start, ops[..|ops| - 1], n, f), ops[|ops| - 1], start, n, f);
    }
  }

  lemma StepNumbers(p: Plan, op: Op, start: gf, n: gf, f: gf)
    requires n > 0 && Numbered(p, start, n, f)
    ensures Numbered(PlanStep(p, op, n, f), start, n, f)
  {
    hide NextSeq;
    assert SeqAt(start, |p.groups| + 1) == NextSeq(SeqAt(start, |p.groups|));
  }

  lemma {:induction false} SeqCycle(start: gf, k: nat)
    requires start != 0
    ensures SeqAt(start, k) == (start - 1 + k) % 255 + 1
  {
    hide NextSeq;
    if k > 0 {
      SeqCycle(start, k - 1);
      CycleStep(start - 1 + (k - 1));
    }
  }

  lemma CycleStep(a: nat)
    ensures NextSeq(a % 255 + 1) == (a + 1) % 255 + 1
  {
    assert (a + 1) % 255 == if a % 255 == 254 then 0 else a % 255 + 1;
  }

  /** Fewer than 255 groups apart, sequence numbers differ. */
  lemma SeqDistinct(start: gf, j: nat, k: nat)
    requires start != 0 && j < k < j + 255
    ensures SeqAt(start, j) != SeqAt(start, k) && SeqAt(start, k) != 0
  {
    hide SeqAt;
    SeqCycle(start, j);
    SeqCycle(start, k);
    ResiduesDiffer(start - 1 + j, k - j);
  }

  lemma ResiduesDiffer(a: nat, d: nat)
    requires 0 < d < 255
    ensures (a + d) % 255 != a % 255
  {
  }
}
