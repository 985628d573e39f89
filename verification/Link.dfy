/** The sending thread, a radio and the decoder put together. */
module Link {
  import opened Blocks
  import opened Groups
  import opened DecoderRun
  import opened EncoderRun
  import opened EndToEnd
  import opened Guarantees
  import opened SendLoop
  import opened Encoder
  import opened Decoder
  import EncoderModel
  import DecoderModel

  /** Feeds packets to the decoder in the order in which they arrive. */
  method Receive(dec: FECDecoder, ps: seq<FECBlock>)
    requires dec.Valid() && AcceptsAll(dec.Value(), ps)
    modifies dec
    ensures dec.Value() == Feed(old(dec.Value()), ps)
  {
    hide DecoderModel.Step, DecoderModel.Accepts;
    ghost var s := dec.Value();
    for i := 0 to |ps|
      invariant AcceptsAll(s, ps[..i]) && dec.Value() == Feed(s, ps[..i])
    {
      assert ps[..i + 1][..i] == ps[..i];
      AcceptsNext(s, ps, i);
      dec.AddBlock(ps[i]);
    }
    assert ps[..|ps|] == ps;
  }

  lemma {:induction false} AcceptsNext(s: DecoderModel.State, ps: seq<FECBlock>, i: nat)
    requires AcceptsAll(s, ps) && i < |ps|
    ensures AcceptsAll(s, ps[..i]) && DecoderModel.Accepts(Feed(s, ps[..i]), ps[i]) && AcceptsAll(s, ps[..i + 1])
    decreases |ps|
  {
    hide DecoderModel.Step, DecoderModel.Accepts;
    var n := |ps| - 1;
    assert ps[..n + 1] == ps;
    if i < n {
      AcceptsNext(s, ps[..n], i);
      assert ps[..n][..i] == ps[..i] && ps[..n][..i + 1] == ps[..i + 1];
    }
  }

  /** An encoder of a link with FEC that is about to start. */
  predicate Starts(s: EncoderModel.State)
  {
    EncoderModel.Valid(s) && !EncoderModel.Passing(s) && s.ins == [] && s.out == [] && s.seqNum != 0
  }

  /** The thread serves any number of links, over a radio that loses nothing. Whatever the lengths of the
      queues and the traffic on the other links, the receiver of link e gets every message of every
      closed group, if the link has FEC: all messages, if the last one for the link is a flush. */
  method TransferWithoutLoss(encs: seq<FECEncoder>, msgs: seq<Message>, queueSize: nat -> nat, maxQueueSize: nat,
                             e: nat)
    returns (dec: FECDecoder)
    requires forall i, j :: 0 <= i < j < |encs| ==> encs[i] != encs[j]
    requires forall i :: 0 <= i < |encs| ==> encs[i].Ready() && encs[i].outBlocks == []
    requires forall i :: 0 <= i < |msgs| ==> Fitting(encs, msgs[i])
    requires e < |encs| && Starts(encs[e].Value())
    modifies encs
    ensures FecLink(old(encs[e].Value()), OpsFor(msgs, e))
    ensures forall i :: 0 <= i < |dec.outBlocks| ==> dec.outBlocks[i].WellFormed()
    ensures EndsWithFlush(msgs, e) ==> Payloads(dec.outBlocks) == Exactly(PayloadsFor(msgs, e))
    ensures var p := PlanOf(old(encs[e].Value()), OpsFor(msgs, e));
      && Payloads(dec.outBlocks) == Exactly(GroupPayloads(p.groups))
      && GroupPayloads(p.groups) + p.pending == PayloadsFor(msgs, e)
  {
    hide EncoderRun.Run, PlanRun, Feed, AcceptsAll, AddedPayloads, GroupPayloads, OpsFor, SentBy;
    ghost var s := encs[e].Value();
    var sent;
    ghost var kept;
    sent, kept := Send(encs, msgs, queueSize, maxQueueSize);
    dec := new FECDecoder();
    NoDataLostNothingLost(s, OpsFor(msgs, e), kept[e]);
    PayloadsAdded(msgs, e);
    if EndsWithFlush(msgs, e) {
      FlushedNothingPending(msgs, e, s.seqNum, s.numBlocks, s.numFecBlocks);
    }
    Receive(dec, SentBy(sent, e));
  }
}
