/** The sending thread: feeds messages to the encoder and transmits its packets, shedding parity
    packets while the queues are long. */
module SendLoop {
  import opened LinearAlgebra
  import opened ErasureCode
  import opened GF256
  import opened Wrappers
  import opened Blocks
  import opened Groups
  import opened EncoderModel
  import opened EncoderRun
  import opened EndToEnd
  import opened Guarantees
  import opened Encoder

  /** An empty message asks for a flush. */
  function OpOf(msg: vec): Op
  {
    if msg == [] then Flush else Add(msg)
  }

  /** A message names its encoder; the one that only asks for a flush need not have one. */
  datatype Message = Message(payload: vec, encoder: Option<nat>)

  /** A packet on the air, with the encoder it came from. */
  datatype Transmission = Transmission(encoder: nat, packet: FECBlock)

  /** What the messages ask of encoder e. */
  function OpsFor(msgs: seq<Message>, e: nat): seq<Op>
  {
    if msgs == [] then []
    else
      var n := |msgs| - 1;
      OpsFor(msgs[..n], e) + if msgs[n].encoder == Some(e) then [OpOf(msgs[n].payload)] else []
  }

  /** The packets of encoder e, in the order in which they were sent. */
  function SentBy(sent: seq<Transmission>, e: nat): seq<FECBlock>
  {
    if sent == [] then []
    else
      var n := |sent| - 1;
      SentBy(sent[..n], e) + if sent[n].encoder == e then [sent[n].packet] else []
  }

  function Tagged(packets: seq<FECBlock>, e: nat): (r: seq<Transmission>)
    ensures |r| == |packets|
  {
    seq(|packets|, i requires 0 <= i < |packets| => Transmission(e, packets[i]))
  }

  lemma {:induction false} SentMore(sent: seq<Transmission>, packets: seq<FECBlock>, e: nat, j: nat)
    ensures SentBy(sent + Tagged(packets, e), j) == SentBy(sent, j) + if j == e then packets else []
    decreases |packets|
  {
    var all := sent + Tagged(packets, e);
    if packets == [] {
      assert all == sent;
    } else {
      var n := |packets| - 1;
      SentMore(sent, packets[..n], e, j);
      assert all[..|all| - 1] == sent + Tagged(packets[..n], e);
      assert packets[..n] + [packets[n]] == packets;
    }
  }

  function Emptied(s: State): State
  {
    s.(out := [])
  }

  /** A step only appends to the output. */
  lemma StepAppends(s: State, op: Op)
    requires EncoderModel.Valid(s) && EncoderRun.Sendable(op, s.maxBlockSize)
    ensures EncoderModel.Valid(Emptied(s))
    ensures Step(s, op) == Step(Emptied(s), op).(out := s.out + Step(Emptied(s), op).out)
  {
    hide ParityBlocks, DataBlocks, MaxSize;
    match op
    case Add(payload) =>
      LoadedBody(s, payload);
      assert FreshBlock(Emptied(s), |payload|) == FreshBlock(s, |payload|);
      if !Passing(s) {
        var b := Loaded(FreshBlock(s, |payload|), payload);
        var t := s.(ins := s.ins + [b.(block := |s.ins| % 256)]);
        assert Encodable(t);
        EncodeAppends(t);
      }
    case Flush =>
      EncodeAppends(s);
  }

  lemma EncodeAppends(s: State)
    requires Encodable(s)
    ensures AfterEncode(s) == AfterEncode(Emptied(s)).(out := s.out + AfterEncode(Emptied(s)).out)
  {
    hide ParityBlocks, DataBlocks, MaxSize;
  }

  /** sent is what is left of ps when only parity packets are dropped; ks says where. */
  ghost predicate ShedParity(ps: seq<FECBlock>, ks: seq<nat>, sent: seq<FECBlock>)
  {
    Ascending(ks, |ps|) && KeepsData(ps, ks) && sent == Select(ps, ks)
  }

  function Shifted(ks: seq<nat>, d: nat): (r: seq<nat>)
    ensures |r| == |ks|
  {
    seq(|ks|, i requires 0 <= i < |ks| => ks[i] + d)
  }

  lemma ShedConcat(a: seq<FECBlock>, ka: seq<nat>, sa: seq<FECBlock>, b: seq<FECBlock>, kb: seq<nat>, sb: seq<FECBlock>)
    requires ShedParity(a, ka, sa) && ShedParity(b, kb, sb)
    ensures ShedParity(a + b, ka + Shifted(kb, |a|), sa + sb)
  {
    var ks := ka + Shifted(kb, |a|);
    forall i: nat | i < |a + b| && (a + b)[i].IsData()
      ensures i in ks
    {
      if i < |a| {
        assert a[i].IsData() && i in ka;
      } else {
        assert b[i - |a|].IsData() && i - |a| in kb;
        var j :| 0 <= j < |kb| && kb[j] == i - |a|;
        assert Shifted(kb, |a|)[j] == i;
      }
    }
  }

  // ---------- which packets are shed ----------

  /** The kept ones of the finished packets: all that carry data, and those parity packets at which the
      message queue and the packets behind are together not longer than the limit. */
  ghost predicate Shedding(all: seq<FECBlock>, ks: seq<nat>, queueSize: nat -> nat, maxQueueSize: nat, looks: nat)
  {
    forall i: nat :: i < |all| ==>
      (i in ks <==> all[i].IsData() || queueSize(looks + i) + (|all| - 1 - i) <= maxQueueSize)
  }

  /** The queue is always so short, or always so long, that no look, or every look, finds it beyond the limit
      whatever one message makes the encoder finish. */
  ghost predicate Roomy(queueSize: nat -> nat, maxQueueSize: nat)
  {
    forall k: nat :: queueSize(k) + 255 <= maxQueueSize
  }

  ghost predicate Crowded(queueSize: nat -> nat, maxQueueSize: nat)
  {
    forall k: nat :: queueSize(k) > maxQueueSize
  }

  function DataOnly(ps: seq<FECBlock>): seq<FECBlock>
  {
    if ps == [] then [] else DataOnly(ps[..|ps| - 1]) + if ps[|ps| - 1].IsData() then [ps[|ps| - 1]] else []
  }

  lemma {:induction false} DataOnlyAppend(a: seq<FECBlock>, b: seq<FECBlock>)
    ensures DataOnly(a + b) == DataOnly(a) + DataOnly(b)
    decreases |b|
  {
    if b == [] {
      assert a + b == a;
    } else {
      DataOnlyAppend(a, b[..|b| - 1]);
      assert (a + b)[..|a + b| - 1] == a + b[..|b| - 1];
    }
  }

  /** Positions in ascending order that include the last one of n. */
  lemma LastPosition(ks: seq<nat>, n: nat)
    requires Ascending(ks, n + 1) && n in ks
    ensures ks != [] && ks[|ks| - 1] == n && Ascending(ks[..|ks| - 1], n)
  {
    var j :| 0 <= j < |ks| && ks[j] == n;
    assert ks[|ks| - 1] <= n;
  }

  lemma NotLastPosition(ks: seq<nat>, n: nat)
    requires Ascending(ks, n + 1) && n !in ks
    ensures Ascending(ks, n)
  {
    forall i | 0 <= i < |ks|
      ensures ks[i] < n
    {
      assert ks[i] in ks;
    }
  }

  lemma {:induction false} AllKept(ps: seq<FECBlock>, ks: seq<nat>)
    requires Ascending(ks, |ps|) && forall i: nat :: i < |ps| ==> i in ks
    ensures Select(ps, ks) == ps
  {
    if ps == [] {
      assert ks == [];
    } else {
      var n := |ps| - 1;
      LastPosition(ks, n);
      var front := ks[..|ks| - 1];
      forall i: nat | i < n
        ensures i in front
      {
        assert i in ks;
        var j :| 0 <= j < |ks| && ks[j] == i;
        assert front[j] == i;
      }
      AllKept(ps[..n], front);
      SelectFront(ps, ks);
    }
  }

  lemma SelectFront(ps: seq<FECBlock>, ks: seq<nat>)
    requires ps != [] && ks != [] && Ascending(ks, |ps|) && ks[|ks| - 1] == |ps| - 1
    ensures Ascending(ks[..|ks| - 1], |ps| - 1)
    ensures Select(ps, ks) == Select(ps[..|ps| - 1], ks[..|ks| - 1]) + [ps[|ps| - 1]]
  {
  }

  lemma {:induction false} DataKept(ps: seq<FECBlock>, ks: seq<nat>)
    requires Ascending(ks, |ps|) && forall i: nat :: i < |ps| ==> (i in ks <==> ps[i].IsData())
    ensures Select(ps, ks) == DataOnly(ps)
  {
    if ps == [] {
      assert ks == [];
    } else {
      var n := |ps| - 1;
      if ps[n].IsData() {
        LastPosition(ks, n);
        var front := ks[..|ks| - 1];
        forall i: nat | i < n
          ensures i in front <==> ps[i].IsData()
        {
          if i in ks {
            var j :| 0 <= j < |ks| && ks[j] == i;
            assert front[j] == i;
          }
        }
        DataKept(ps[..n], front);
        SelectFront(ps, ks);
      } else {
        NotLastPosition(ks, n);
        DataKept(ps[..n], ks);
        assert Select(ps, ks) == Select(ps[..n], ks);
      }
    }
  }

  /** Nothing is shed while the queues are short enough, all parity while they are too long. */
  ghost predicate Bounded(all: seq<FECBlock>, sent: seq<FECBlock>, queueSize: nat -> nat, maxQueueSize: nat)
  {
    && (Roomy(queueSize, maxQueueSize) ==> sent == all)
    && (Crowded(queueSize, maxQueueSize) ==> sent == DataOnly(all))
  }

  lemma PassingBounded(all: seq<FECBlock>, ks: seq<nat>, sent: seq<FECBlock>, queueSize: nat -> nat,
                       maxQueueSize: nat, looks: nat)
    requires ShedParity(all, ks, sent) && |all| <= 256
    requires Shedding(all, ks, queueSize, maxQueueSize, looks)
    ensures Bounded(all, sent, queueSize, maxQueueSize)
  {
    if Roomy(queueSize, maxQueueSize) {
      AllKept(all, ks);
    }
    if Crowded(queueSize, maxQueueSize) {
      DataKept(all, ks);
    }
  }

  lemma BoundedAppend(a: seq<FECBlock>, sa: seq<FECBlock>, b: seq<FECBlock>, sb: seq<FECBlock>,
                      queueSize: nat -> nat, maxQueueSize: nat)
    requires Bounded(a, sa, queueSize, maxQueueSize) && Bounded(b, sb, queueSize, maxQueueSize)
    ensures Bounded(a + b, sa + sb, queueSize, maxQueueSize)
  {
    DataOnlyAppend(a, b);
  }

  /** One message makes the encoder finish one group or one packet at most. */
  lemma StepSize(s: State, op: Op)
    requires EncoderModel.Valid(s) && EncoderRun.Sendable(op, s.maxBlockSize) && s.out == []
    ensures |Step(s, op).out| <= 256
  {
    hide ParityBlocks, DataBlocks, MaxSize;
  }

  // ---------- the loop ----------

  lemma EmptyShed()
    ensures ShedParity([], [], [])
  {
  }

  lemma ShedOne(p: FECBlock)
    ensures ShedParity([p], [0], [p])
    ensures !p.IsData() ==> ShedParity([p], [], [])
  {
  }

  lemma Positions(all: seq<FECBlock>, ks: seq<nat>, sent: seq<FECBlock>)
    requires ShedParity(all, ks, sent)
    ensures forall k :: k in ks ==> k < |all|
  {
  }

  /** Transmits everything the encoder has finished. queueSize(i) is whatever the length of the
      message queue reads as at the i-th look. */
  method Drain(enc: FECEncoder, queueSize: nat -> nat, maxQueueSize: nat, looks: nat)
    returns (sent: seq<FECBlock>, looks': nat, ghost ks: seq<nat>)
    modifies enc`outBlocks
    ensures enc.outBlocks == []
    ensures ShedParity(old(enc.outBlocks), ks, sent)
    ensures looks' == looks + |old(enc.outBlocks)|
    ensures var all := old(enc.outBlocks);
      forall i: nat :: i < |all| ==>
        (i in ks <==> all[i].IsData() || queueSize(looks + i) + (|all| - 1 - i) <= maxQueueSize)
  {
    hide ShedParity;
    EmptyShed();
    sent, looks', ks := [], looks, [];
    ghost var all := enc.outBlocks;
    ghost var n := 0;
    var block := enc.GetBlock();
    while block.Some?
      invariant n <= |all|
      invariant block.Some? ==> n < |all| && block.value == all[n] && enc.outBlocks == all[n + 1..]
      invariant block.None? ==> n == |all| && enc.outBlocks == []
      invariant ShedParity(all[..n], ks, sent) && looks' == looks + n
      invariant forall i: nat :: i < n ==>
        (i in ks <==> all[i].IsData() || queueSize(looks + i) + (|all| - 1 - i) <= maxQueueSize)
      decreases |all| - n
    {
      assert all[..n + 1] == all[..n] + [all[n]];
      if !block.value.IsData() && queueSize(looks') + |enc.outBlocks| > maxQueueSize {
        ShedOne(all[n]);
        ShedConcat(all[..n], ks, sent, [all[n]], [], []);
        assert ks + Shifted([], n) == ks && sent + [] == sent;
        assert n !in ks by { Positions(all[..n], ks, sent); }
      } else {
        ShedOne(all[n]);
        ShedConcat(all[..n], ks, sent, [all[n]], [0], [all[n]]);
        sent := sent + [block.value];
        ks := ks + Shifted([0], n);
        assert ks[|ks| - 1] == n;
      }
      looks' := looks' + 1;
      n := n + 1;
      block := enc.GetBlock();
    }
    assert all[..n] == all;
  }

  /** Gets a block from the encoder, copies the payload into it and passes it back. */
  method AddPayload(enc: FECEncoder, payload: vec)
    requires enc.Ready() && |payload| + 2 <= enc.maxBlockSize
    modifies enc
    ensures enc.Ready() && enc.Value() == Step(old(enc.Value()), Add(payload))
  {
    hide AfterAdd;
    var block := enc.GetNextBlock(|payload|);
    LoadedBody(enc.Value(), payload);
    enc.AddBlock(Loaded(block, payload));
  }

  /** An empty message flushes the encoder, any other is added to it. */
  method Take(enc: FECEncoder, msg: vec)
    requires enc.Ready() && |msg| + 2 <= enc.maxBlockSize
    modifies enc
    ensures enc.Ready() && enc.Value() == Step(old(enc.Value()), OpOf(msg))
  {
    hide AfterEncode, AfterAdd;
    if |msg| == 0 {
      enc.Flush();
    } else {
      AddPayload(enc, msg);
    }
  }

  /** What one message does to an encoder in state s, and what is sent: the encoder flushes or takes the
      payload; of what it finishes all data is sent, and of the parity what the queue lengths allow. */
  ghost predicate Handled(s: State, msg: vec, t: State, sent: seq<FECBlock>, ks: seq<nat>, queueSize: nat -> nat,
                          maxQueueSize: nat, looks: nat, looks': nat)
  {
    && EncoderModel.Valid(s) && EncoderRun.Sendable(OpOf(msg), s.maxBlockSize)
    && t == Emptied(Step(s, OpOf(msg)))
    && var all := Step(s, OpOf(msg)).out;
    && ShedParity(all, ks, sent)
    && Shedding(all, ks, queueSize, maxQueueSize, looks)
    && looks' == looks + |all|
    && Bounded(all, sent, queueSize, maxQueueSize)
    && (msg == [] ==> t.ins == [])
    && (forall payloads :: IsPending(s, payloads) ==> HandledWhilePending(s, payloads, msg, t, ks, sent))
    && (Passing(s) ==> HandledWhilePassing(s, msg, sent, queueSize(looks) > maxQueueSize))
  }

  /** What a message does without FEC: it is sent in a packet of its own, unless that counts as parity,
      because no data block is announced, and the queue is too long. */
  ghost predicate HandledWhilePassing(s: State, msg: vec, sent: seq<FECBlock>, tooLong: bool)
    requires EncoderModel.Valid(s) && EncoderRun.Sendable(OpOf(msg), s.maxBlockSize)
  {
    if msg == [] || (s.numBlocks == 0 && tooLong) then sent == []
    else sent == [FECBlock(s.seqNum, 0, s.numBlocks, s.numFecBlocks, Padded(msg, s.maxBlockSize))]
  }

  /** One turn of the loop. */
  method HandleMessage(enc: FECEncoder, msg: vec, queueSize: nat -> nat, maxQueueSize: nat, looks: nat)
    returns (sent: seq<FECBlock>, looks': nat, ghost ks: seq<nat>)
    requires enc.Ready() && |msg| + 2 <= enc.maxBlockSize && enc.outBlocks == []
    modifies enc
    ensures enc.Ready()
    ensures Handled(old(enc.Value()), msg, enc.Value(), sent, ks, queueSize, maxQueueSize, looks, looks')
  {
    hide Step, ShedParity, Handled;
    ghost var s := enc.Value();
    Take(enc, msg);
    sent, looks', ks := Drain(enc, queueSize, maxQueueSize, looks);
    MessageHandled(s, msg, sent, ks, queueSize, maxQueueSize, looks);
  }

  lemma MessageHandled(s: State, msg: vec, sent: seq<FECBlock>, ks: seq<nat>, queueSize: nat -> nat,
                       maxQueueSize: nat, looks: nat)
    requires EncoderModel.Valid(s) && s.out == [] && |msg| + 2 <= s.maxBlockSize
    requires var all := Step(s, OpOf(msg)).out;
      && ShedParity(all, ks, sent)
      && Shedding(all, ks, queueSize, maxQueueSize, looks)
    ensures Handled(s, msg, Emptied(Step(s, OpOf(msg))), sent, ks, queueSize, maxQueueSize, looks,
                    looks + |Step(s, OpOf(msg)).out|)
  {
    EmptyAfterFlush(s);
    MessageBounded(s, msg, sent, ks, queueSize, maxQueueSize, looks);
    MessagesWhilePending(s, msg, ks, sent);
    hide Step, ShedParity, IsPending, Bounded, HandledWhilePending, HandledWhilePassing, Shedding;
    if Passing(s) {
      MessageWhilePassing(s, msg, ks, sent, queueSize, maxQueueSize, looks);
    }
  }

  lemma MessageBounded(s: State, msg: vec, sent: seq<FECBlock>, ks: seq<nat>, queueSize: nat -> nat,
                       maxQueueSize: nat, looks: nat)
    requires EncoderModel.Valid(s) && s.out == [] && |msg| + 2 <= s.maxBlockSize
    requires var all := Step(s, OpOf(msg)).out;
      && ShedParity(all, ks, sent)
      && Shedding(all, ks, queueSize, maxQueueSize, looks)
    ensures Bounded(Step(s, OpOf(msg)).out, sent, queueSize, maxQueueSize)
  {
    StepSize(s, OpOf(msg));
    hide Step, ShedParity, Bounded, EncoderModel.Valid;
    PassingBounded(Step(s, OpOf(msg)).out, ks, sent, queueSize, maxQueueSize, looks);
  }

  lemma MessagesWhilePending(s: State, msg: vec, ks: seq<nat>, sent: seq<FECBlock>)
    requires EncoderModel.Valid(s) && s.out == [] && EncoderRun.Sendable(OpOf(msg), s.maxBlockSize)
    requires ShedParity(Step(s, OpOf(msg)).out, ks, sent)
    ensures forall payloads :: IsPending(s, payloads) ==>
      HandledWhilePending(s, payloads, msg, Emptied(Step(s, OpOf(msg))), ks, sent)
  {
    hide Step, ShedParity, IsPending, HandledWhilePending, EncoderModel.Valid;
    forall payloads | IsPending(s, payloads)
      ensures HandledWhilePending(s, payloads, msg, Emptied(Step(s, OpOf(msg))), ks, sent)
    {
      MessageWhilePending(s, payloads, msg, ks, sent);
    }
  }

  /** What a message does while payloads wait for their group to be closed: an empty one closes the group,
      any other joins it and closes it when it is full; the packets of a closed group are sent. */
  ghost predicate HandledWhilePending(s: State, payloads: seq<vec>, msg: vec, t: State, ks: seq<nat>,
                                      sent: seq<FECBlock>)
  {
    var group := if msg == [] then payloads else payloads + [msg];
    if group != [] && (msg == [] || |group| == s.numBlocks) then
      && t.ins == [] && Groups.WellFormed(Group(s.seqNum, group, s.numFecBlocks))
      && ShedParity(Packets(Group(s.seqNum, group, s.numFecBlocks)), ks, sent)
    else IsPending(t, group) && sent == []
  }

  lemma MessageWhilePending(s: State, payloads: seq<vec>, msg: vec, ks: seq<nat>, sent: seq<FECBlock>)
    requires IsPending(s, payloads) && s.out == [] && EncoderRun.Sendable(OpOf(msg), s.maxBlockSize)
    requires ShedParity(Step(s, OpOf(msg)).out, ks, sent)
    ensures HandledWhilePending(s, payloads, msg, Emptied(Step(s, OpOf(msg))), ks, sent)
  {
    hide Step, Packets;
    PendingStep(s, payloads, OpOf(msg));
    NothingShed(Step(s, OpOf(msg)).out, ks, sent);
  }

  lemma MessageWhilePassing(s: State, msg: vec, ks: seq<nat>, sent: seq<FECBlock>, queueSize: nat -> nat,
                            maxQueueSize: nat, looks: nat)
    requires EncoderModel.Valid(s) && Passing(s) && s.out == [] && |msg| + 2 <= s.maxBlockSize
    requires var all := Step(s, OpOf(msg)).out;
      && ShedParity(all, ks, sent)
      && Shedding(all, ks, queueSize, maxQueueSize, looks)
    ensures HandledWhilePassing(s, msg, sent, queueSize(looks) > maxQueueSize)
  {
    if msg == [] {
      EncodeNothing(s);
      NothingShed([], ks, sent);
    } else {
      hide Step;
      PassingAdd(s, msg);
      AscendingSize(ks, 1);
      if 0 in ks {
        assert ks == [0];
      } else {
        assert ks == [] by { NotLastPosition(ks, 0); AscendingSize(ks, 0); }
      }
    }
  }

  lemma NothingShed(all: seq<FECBlock>, ks: seq<nat>, sent: seq<FECBlock>)
    requires ShedParity(all, ks, sent)
    ensures all == [] ==> sent == []
  {
    AscendingSize(ks, |all|);
  }

  lemma EmptyAfterFlush(s: State)
    requires EncoderModel.Valid(s)
    ensures Step(s, Flush).ins == []
  {
    hide ParityBlocks, DataBlocks, MaxSize;
  }

  /** The encoder went from s through ops to t, and what was sent meanwhile is its output without some
      parity packets: all of it or all data of it while the queues are short or long enough. */
  ghost predicate Sent(s: State, t: State, ops: seq<Op>, ks: seq<nat>, sent: seq<FECBlock>, queueSize: nat -> nat,
                       maxQueueSize: nat)
  {
    && EncoderModel.Valid(s)
    && (forall k :: 0 <= k < |ops| ==> EncoderRun.Sendable(ops[k], s.maxBlockSize))
    && t == Emptied(Run(s, ops))
    && ShedParity(Run(s, ops).out, ks, sent)
    && Bounded(Run(s, ops).out, sent, queueSize, maxQueueSize)
  }

  lemma SentNothing(s: State, queueSize: nat -> nat, maxQueueSize: nat)
    requires EncoderModel.Valid(s) && s.out == []
    ensures Sent(s, s, [], [], [], queueSize, maxQueueSize)
  {
  }

  lemma SentNext(s: State, t: State, ops: seq<Op>, ks: seq<nat>, sent: seq<FECBlock>, op: Op, more: seq<nat>,
                 packets: seq<FECBlock>, queueSize: nat -> nat, maxQueueSize: nat)
    requires Sent(s, t, ops, ks, sent, queueSize, maxQueueSize)
    requires EncoderRun.Sendable(op, s.maxBlockSize) && EncoderModel.Valid(t)
    requires t.maxBlockSize == s.maxBlockSize && ShedParity(Step(t, op).out, more, packets)
    requires Bounded(Step(t, op).out, packets, queueSize, maxQueueSize)
    ensures Sent(s, Emptied(Step(t, op)), ops + [op], ks + Shifted(more, |Run(s, ops).out|), sent + packets,
                 queueSize, maxQueueSize)
  {
    hide Step, ShedParity, Bounded;
    var all := ops + [op];
    assert all[..|all| - 1] == ops;
    StepAppends(Run(s, ops), op);
    ShedConcat(Run(s, ops).out, ks, sent, Step(t, op).out, more, packets);
    BoundedAppend(Run(s, ops).out, sent, Step(t, op).out, packets, queueSize, maxQueueSize);
  }

  /** The message has an encoder, whose blocks have room for it, unless it only asks for a flush. */
  predicate Fitting(encs: seq<FECEncoder>, msg: Message)
  {
    && (msg.encoder.None? ==> msg.payload == [])
    && (msg.encoder.Some? ==> msg.encoder.value < |encs| && |msg.payload| + 2 <= encs[msg.encoder.value].maxBlockSize)
  }

  /** One turn of the loop as seen by the encoder it is for, whose history is s, ops, kept and sent. */
  method Forward(enc: FECEncoder, msg: vec, queueSize: nat -> nat, maxQueueSize: nat, looks: nat,
                 ghost s: State, ghost ops: seq<Op>, ghost kept: seq<nat>, ghost sent: seq<FECBlock>)
    returns (packets: seq<FECBlock>, looks': nat, ghost kept': seq<nat>)
    requires enc.Ready() && |msg| + 2 <= enc.maxBlockSize && enc.outBlocks == []
    requires Sent(s, enc.Value(), ops, kept, sent, queueSize, maxQueueSize)
    modifies enc
    ensures enc.Ready() && enc.outBlocks == []
    ensures Sent(s, enc.Value(), ops + [OpOf(msg)], kept', sent + packets, queueSize, maxQueueSize)
  {
    hide Step, ShedParity, Sent, Bounded, Handled;
    ghost var t := enc.Value();
    ghost var more;
    packets, looks', more := HandleMessage(enc, msg, queueSize, maxQueueSize, looks);
    HandledFacts(t, msg, enc.Value(), packets, more, queueSize, maxQueueSize, looks, looks');
    SentSize(s, t, ops, kept, sent, queueSize, maxQueueSize);
    SentNext(s, t, ops, kept, sent, OpOf(msg), more, packets, queueSize, maxQueueSize);
    kept' := kept + Shifted(more, |Run(s, ops).out|);
  }

  lemma HandledFacts(s: State, msg: vec, t: State, sent: seq<FECBlock>, ks: seq<nat>, queueSize: nat -> nat,
                     maxQueueSize: nat, looks: nat, looks': nat)
    requires Handled(s, msg, t, sent, ks, queueSize, maxQueueSize, looks, looks')
    ensures EncoderModel.Valid(s) && EncoderRun.Sendable(OpOf(msg), s.maxBlockSize) && t == Emptied(Step(s, OpOf(msg)))
    ensures ShedParity(Step(s, OpOf(msg)).out, ks, sent)
    ensures Bounded(Step(s, OpOf(msg)).out, sent, queueSize, maxQueueSize)
  {
  }

  /** The loop over all messages that arrive before the thread is told to stop. */
  method Send(encs: seq<FECEncoder>, msgs: seq<Message>, queueSize: nat -> nat, maxQueueSize: nat)
    returns (sent: seq<Transmission>, ghost kept: seq<seq<nat>>)
    requires forall i, j :: 0 <= i < j < |encs| ==> encs[i] != encs[j]
    requires forall e :: 0 <= e < |encs| ==> encs[e].Ready() && encs[e].outBlocks == []
    requires forall i :: 0 <= i < |msgs| ==> Fitting(encs, msgs[i])
    modifies encs
    ensures |kept| == |encs|
    ensures forall e :: 0 <= e < |encs| ==>
      encs[e].Ready() && Sent(old(encs[e].Value()), encs[e].Value(), OpsFor(msgs, e), kept[e], SentBy(sent, e),
                               queueSize, maxQueueSize)
  {
    hide Step, Run, ShedParity, Sent, OpsFor, SentBy, EncoderModel.Valid;
    ghost var start := seq(|encs|, e requires 0 <= e < |encs| reads encs => encs[e].Value());
    sent, kept := [], seq(|encs|, _ => []);
    var looks := 0;
    NothingYet(encs, queueSize, maxQueueSize);
    for i := 0 to |msgs|
      invariant |kept| == |encs|
      invariant forall e :: 0 <= e < |encs| ==> encs[e].Ready() && encs[e].outBlocks == []
      invariant forall e :: 0 <= e < |encs| ==>
        Sent(start[e], encs[e].Value(), OpsFor(msgs[..i], e), kept[e], SentBy(sent, e), queueSize, maxQueueSize)
    {
      OpsMore(msgs, i);
      if msgs[i].payload == [] && msgs[i].encoder.None? {
        continue;
      }
      var e := msgs[i].encoder.value;
      ghost var keptMore;
      var packets;
      packets, looks, keptMore := Forward(encs[e], msgs[i].payload, queueSize, maxQueueSize, looks,
                                          start[e], OpsFor(msgs[..i], e), kept[e], SentBy(sent, e));
      forall j | 0 <= j < |encs|
        ensures SentBy(sent + Tagged(packets, e), j) == if j == e then SentBy(sent, j) + packets else SentBy(sent, j)
      {
        SentMore(sent, packets, e, j);
      }
      sent := sent + Tagged(packets, e);
      kept := kept[e := keptMore];
    }
    assert msgs[..|msgs|] == msgs;
  }

  lemma NothingYet(encs: seq<FECEncoder>, queueSize: nat -> nat, maxQueueSize: nat)
    requires forall e :: 0 <= e < |encs| ==> encs[e].Ready() && encs[e].outBlocks == []
    ensures forall e: nat :: OpsFor([], e) == [] && SentBy([], e) == []
    ensures forall e :: 0 <= e < |encs| ==> Sent(encs[e].Value(), encs[e].Value(), [], [], [], queueSize, maxQueueSize)
  {
    forall e | 0 <= e < |encs|
      ensures Sent(encs[e].Value(), encs[e].Value(), [], [], [], queueSize, maxQueueSize)
    {
      SentNothing(encs[e].Value(), queueSize, maxQueueSize);
    }
  }

  lemma OpsMore(msgs: seq<Message>, i: nat)
    requires i < |msgs|
    ensures forall e: nat :: msgs[i].encoder == Some(e) ==>
      OpsFor(msgs[..i + 1], e) == OpsFor(msgs[..i], e) + [OpOf(msgs[i].payload)]
    ensures forall e: nat :: msgs[i].encoder != Some(e) ==>
      OpsFor(msgs[..i + 1], e) == OpsFor(msgs[..i], e)
  {
    assert msgs[..i + 1][..i] == msgs[..i];
  }

  lemma SentSize(s: State, t: State, ops: seq<Op>, ks: seq<nat>, sent: seq<FECBlock>, queueSize: nat -> nat,
                 maxQueueSize: nat)
    requires Sent(s, t, ops, ks, sent, queueSize, maxQueueSize)
    ensures EncoderModel.Valid(s) && t.maxBlockSize == s.maxBlockSize
    ensures forall k :: 0 <= k < |ops| ==> EncoderRun.Sendable(ops[k], s.maxBlockSize)
  {
    hide Run;
  }

  // ---------- what the messages ask for ----------

  /** The payloads of the messages that name encoder e, without the empty ones. */
  function PayloadsFor(msgs: seq<Message>, e: nat): seq<vec>
  {
    if msgs == [] then []
    else
      var n := |msgs| - 1;
      PayloadsFor(msgs[..n], e) +
        if msgs[n].encoder == Some(e) && msgs[n].payload != [] then [msgs[n].payload] else []
  }

  /** The last message that names encoder e is empty, or none names it. */
  predicate EndsWithFlush(msgs: seq<Message>, e: nat)
  {
    msgs == [] ||
    (var n := |msgs| - 1;
     if msgs[n].encoder == Some(e) then msgs[n].payload == [] else EndsWithFlush(msgs[..n], e))
  }

  lemma {:induction false} PayloadsAdded(msgs: seq<Message>, e: nat)
    ensures AddedPayloads(OpsFor(msgs, e)) == PayloadsFor(msgs, e)
  {
    if msgs != [] {
      var n := |msgs| - 1;
      PayloadsAdded(msgs[..n], e);
      if msgs[n].encoder == Some(e) {
        var ops := OpsFor(msgs, e);
        assert ops[..|ops| - 1] == OpsFor(msgs[..n], e);
      } else {
        assert OpsFor(msgs, e) == OpsFor(msgs[..n], e);
      }
    }
  }

  /** After a flush no payload is pending. */
  lemma {:induction false} FlushedNothingPending(msgs: seq<Message>, e: nat, start: gf, n: gf, f: gf)
    requires EndsWithFlush(msgs, e)
    ensures PlanRun(start, OpsFor(msgs, e), n, f).pending == []
  {
    if msgs != [] {
      var ops := OpsFor(msgs, e);
      if msgs[|msgs| - 1].encoder == Some(e) {
        assert ops[|ops| - 1] == Flush;
      } else {
        FlushedNothingPending(msgs[..|msgs| - 1], e, start, n, f);
        assert ops == OpsFor(msgs[..|msgs| - 1], e);
      }
    }
  }
}
