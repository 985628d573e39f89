# Verification of wifibroadcast

A Dafny 4.11 model of the parts of wifibroadcast that decide whether a payload gets through: the
erasure code, the packet layer above it, the sending thread with its queue, and the radiotap
iterator of the receiver. `dafny verify dfyconfig.toml` checks everything.

**The erasure code (`src/fec.c`).** `Bits`, `GF256` and `Primitive` define arithmetic of polynomials
modulo x^8+x^4+x^3+x^2+1 and prove that it is a field in which x generates every non-zero element.
`Tables` fills the lookup tables with the source's loops, `Kernels` has the unrolled buffer loops on
arrays. `LinearAlgebra`, `GaussJordan` and `MatrixInversion` prove the in-place inversion: the
half-finished array is read as a tableau in which some unknowns have been exchanged for right-hand
sides, and every pass keeps its set of solutions. `Cauchy` and `ErasureCode` prove that any e parity
blocks repair any e lost data blocks, and `Fec` proves that `fec_encode` and `fec_decode` compute that.

**The packet layer (`src/fec.cc`, `include/wifibroadcast/fec.hh`).** `Encoder` and `Decoder` are the
classes, proved against the step functions of `EncoderModel` and `DecoderModel`. `EncoderRun` says
what every run of payloads and flushes puts out; `Groups`, `DecoderRun`, `RepairStep` and `LossyRun`
say what the decoder makes of what survives; `EndToEnd` joins both by a channel that may lose any
packet but keeps the order. `Withheld`, `Guarantees`, `NextGroup`, `LoneParity`, `ParityOnly`,
`MixedParity` and `SequenceWrap` state what a user may rely on and exactly when; `Counters` says what the
decoder counts. `BufferEncoder` is the encoder for whole buffers.

**The sending thread (`src/raw_send_thread.cc`, `include/shared_queue.hh`).** `SendLoop` is the loop
that encodes the messages of any number of links and sheds parity packets, `Link` puts it in front of a
decoder, `SharedQueue` is the bounded queue, once as a class and once as a state machine of interleaved
steps.

**The radiotap iterator (`src/radiotap/radiotap.c`).** `RadiotapLayout` defines word by word which
fields a header holds and where; `RadiotapFields` says the same of the header's bytes and of the members
that the format lists for each field; `Radiotap` is the iterator that walks the presence bits, and proves
that it finds exactly these fields.

## What the theorems assume

- At most 128 data blocks and 128 parity blocks in a group. `fec_encode` asserts this
  (src/fec.c:785-786), but the build defines NDEBUG (CMakeLists.txt:23-24), and no caller checks it.
- Payload length + 2 is at most the maximum block size: a block's buffer has room for that much only
  (include/wifibroadcast/fec.hh:104-108).
- The first sequence number is not 0, which is what a new decoder holds as the last one
  (include/wifibroadcast/fec.hh:22). The encoder's constructor accepts 0, and then the first group is lost
  (`NextGroup.FirstNumberZero`).
- The channel neither repeats nor reorders packets.
- Two groups that follow each other at the receiver are fewer than 255 groups apart, and a data block of
  every group that is heard at all arrives, unless it has only one. Both are needed. `NextGroup.DeliveredExactlyWhen` says for
  every state that packets can lead to, an unfinished group and leftover parity blocks included, exactly when
  the next group is delivered as it should whatever of it arrives; `NextGroup.AllDataExactlyWhen` says it
  for a group that loses no data block, and `ParityOnly.NextGroupExactlyWhen` says it in terms of what
  arrived of the group before.
- Bit 18 is clear in every presence word that holds fields of the radiotap namespace. The size table has
  a hole there and the iterator then jumps to an address that may never have been set
  (src/radiotap/radiotap.c:273-279).

## Where the code is not what its text says

- Repair is promised for any n of n + f packets. The decoder learns the block size from the data blocks
  that arrive (src/fec.cc:209-212), so a lost payload that is longer than all of these is dropped or cut
  short although enough packets arrived. `Guarantees.OutputCompleteExactlyWhen` and
  `Guarantees.LostPayload` give the exact conditions for the decoder's output and its count of dropped
  blocks; in `Guarantees.LongerPayloadIsLost` two packets of a group of two arrive and one payload is lost.
- The comment at src/fec.c:143 puts the inverse of x^i at x^(GF_SIZE-i-1); the code stores x^(GF_SIZE-i),
  which is the inverse.
- src/fec.cc:365 speaks of 255 blocks as the maximum; the erasure code has room for 128, and the index of
  the next block's coefficient lies beyond the table (`Fec.IndexInTableExactlyWhen`).
- src/fec.cc:361 cuts a buffer into blocks of up to the maximum block size, two bytes more than fit the
  buffers of `FECBlock`. `BufferEncoder.SlicesFitExactlyWhen` says which buffers fit, and a buffer of
  exactly the maximum block size does not (`BufferEncoder.FullBlockDoesNotFit`).
- A parity block of a group without data blocks stays in the decoder (src/fec.cc:233-236). It can keep the
  next group from being repaired (`NextGroup.LeftoverSpoilsRepair`) or be decoded together with another
  block of the same number (`NextGroup.LeftoverCollides`). Then the small matrix has two equal rows,
  `invert_mat` fails, the assertion that should stop the program is compiled out (src/fec.c:889-904), and
  what was left in the matrix is used to fill the lost blocks. With another number nothing fails: the
  decoder solves the parity of two groups together and releases the result (`MixedParity.LeftoverDecodes`),
  which is what was sent exactly when the leftover happens to be the group's own parity under its number
  (`MixedParity.MixedRightExactlyWhen`).
- Without FEC a packet announces no data blocks if the number of blocks is 0, and then counts as parity
  (include/wifibroadcast/fec.hh:92-97): the sending thread drops it while the queue is too long, though it
  is no redundancy (`SendLoop.HandleMessage`).
- Without FEC the decoder counts one packet as dropped each time the numbering skips 0, though none is lost
  (src/fec.cc:137-140; `Counters.PassingLinkCounts`).
- The branch that counts a lost synchronization (src/fec.cc:154-156) is never taken, because the sequence
  number has been unrolled before.

## Model

| member | source | states |
|---|---|---|
| GF256.MulAssoc | src/fec.c:186-196 | multiplication modulo x^8+x^4+x^3+x^2+1, with bytes as polynomials, is associative |
| GF256.MulComm | src/fec.c:186-196 | and commutative |
| GF256.DistribRight | src/fec.c:186-196 | and distributes over exclusive-or |
| Primitive.NoShortPeriod | src/fec.c:217-252 | the powers of x do not repeat before the 255th (the order of x is proved through the divisors of 255, not by listing 255 powers) |
| Primitive.ExpInjective | src/fec.c:217-252 | hence the first 255 powers are pairwise different, so the loop never overwrites an entry of gf_log |
| Primitive.LogExp | src/fec.c:217-257 | gf_log undoes gf_exp on 0..254 |
| Primitive.InvUnique | src/fec.c:267-274 | inverse[x] is the one and only y with x y = 1 |
| Primitive.NoZeroDivisors | src/fec.c:186-196 | a product is zero only if a factor is |
| Tables.Modnn | src/fec.c:149-157 | the folding loop gives x mod 255 for every x >= 0; a negative x comes back cut to a byte |
| Tables.GfTables.constructor | src/fec.c:665-676 | after initialization gf_exp, gf_log, inverse and gf_mul_table hold powers, logarithms, inverses and products for all bytes |
| Tables.GfTables.GenerateGf | src/fec.c:214-275 | gf_exp[i] = x^i for all 510 entries, gf_log its inverse with 255 at zero, inverse[x] the field inverse |
| Tables.GfTables.InitMulTable | src/fec.c:186-196 | entry (x<<8)+y is the product of x and y, the zero row and column included |
| Kernels.SlowAddmul1 | src/fec.c:298-334 | unrolled loop and tail: dst[i] += c src[i] once for every i below sz and any sz >= 0, all other bytes untouched |
| Kernels.Addmul | src/fec.c:404-407 | the same with the short cut for c = 0 |
| Kernels.SlowMul1 | src/fec.c:424-460 | dst[i] = c src[i] for every i below sz, all other bytes untouched |
| Kernels.MulBuffer | src/fec.c:530-533 | the same with the clearing for c = 0 |
| LinearAlgebra.InverseSolves | src/fec.c:904-912 | multiplying by an inverse solves a system |
| LinearAlgebra.SolvesLeftInverse | src/fec.c:535-540 | a matrix that solves every system of a is a left inverse of a |
| GaussJordan.PivotRepresents | src/fec.c:594-631 | scaling the pivot row and clearing its column in place exchanges an unknown for a right-hand side and keeps the set of solutions |
| GaussJordan.SwapRowsRepresents | src/fec.c:589-602 | exchanging the rows of an off-diagonal pivot keeps the set of solutions once the order of the rows is recorded |
| GaussJordan.SwapColumnsRepresents | src/fec.c:643-655 | exchanging columns undoes a recorded row exchange |
| GaussJordan.StuckSingular | src/fec.c:566-588 | if no unused row has an entry in an unused column, some non-zero vector is sent to zero |
| GaussJordan.SingularOrInvertible | src/fec.c:535-540 | a matrix is singular exactly when it has no inverse |
| GaussJordan.CompleteInverse | src/fec.c:643-655 | when all columns are exchanged and the order is restored, the array holds the inverse |
| MatrixInversion.FindPivot | src/fec.c:566-588 | the pivot is a non-zero entry of an unused row and an unused column; if none is found there is none |
| MatrixInversion.PivotStep | src/fec.c:589-641 | one turn of the main loop: swap, scale, eliminate; the short cut for a pivot row that equals the identity row changes nothing |
| MatrixInversion.Unscramble | src/fec.c:643-655 | undoing the recorded exchanges on the columns, last one first, leaves the inverse |
| MatrixInversion.InvertMat | src/fec.c:542-660 | for every k x k matrix: returns 0 exactly when the matrix is invertible and then leaves the inverse in its place, else returns 1 and the matrix is singular; the two other failure exits are never taken |
| Cauchy.CauchyKernel | src/fec.c:728-740 | the entries 1/(x[i]+y[j]) with pairwise different points: only the zero vector is sent to zero, at every size |
| Cauchy.CauchyInvertible | src/fec.c:728-740 | every such matrix is invertible |
| ErasureCode.RepairMatrixInvertible | src/fec.c:874-904 | the matrix built for any lost data blocks and as many different parity blocks is invertible, so the failed-inversion branch is dead |
| ErasureCode.UniqueRepair | src/fec.c:917-948 | survivors and as many parity blocks as were lost leave only one possible set of data blocks |
| ErasureCode.RepairExists | src/fec.c:917-948 | and there always is one, whatever the bytes of the parity blocks |
| ErasureCode.RepairOriginal | src/fec.c:774-948 | decoding any survivors of an encoded stripe gives back the stripe that was encoded, byte for byte |
| ErasureCode.RepairRightExactlyWhen | src/fec.c:917-948 | with parity blocks of whatever origin, decoding gives a stripe exactly when they are its parity |
| ErasureCode.ParityPrefix | src/fec.cc:209-212 | parity of the first bytes of the blocks is the first bytes of the parity, so a decoder may work with a smaller block size |
| Fec.CoefficientIndex | src/fec.c:791-799 | 128^row, row^col with col from 129 and blno^col^128 are the same entry of the table of inverses |
| Fec.IndexInTableExactlyWhen | src/fec.c:794-799 | the index of the coefficient of data block c lies in the table exactly when c is below 128 |
| Fec.FecEncode | src/fec.c:774-800 | block after block, every parity buffer ends as the matrix product with the Cauchy coefficients; nothing beyond the block size and no data block changes; with no data nothing changes |
| Fec.Reduce | src/fec.c:808-835 | every parity buffer keeps only what the lost blocks contribute, and the list of lost blocks is used up |
| Fec.BuildMatrix | src/fec.c:874-882 | the small matrix has one row per parity block at hand and one column per lost block |
| Fec.Resolve | src/fec.c:854-915 | every lost block becomes the reduced parity blocks weighted by its row of the inverse |
| Fec.SolvedBlocks | src/fec.c:854-915 | blocks solved from the reduced parity are a repair of the stripe |
| Fec.FecDecode | src/fec.c:917-948 | the lost blocks are overwritten with the repair, survivors and all bytes beyond the block size stay as they are |
| Blocks.PaddedData | include/wifibroadcast/fec.hh:35-68 | length and payload are read back from a block, or from any prefix of it that holds the payload |
| Encoder.FECEncoder.constructor | src/fec.cc:14-21 | a new encoder has nothing pending and nothing to send |
| Encoder.FECEncoder.GetNextBlock | src/fec.cc:24-27 | a fresh block: current sequence number, next index, configured counts, zeroed data |
| Encoder.FECEncoder.AddBlock | src/fec.cc:30-49 | numbers the block; sends it at once without FEC, else keeps it and closes the group when it is full |
| Encoder.FECEncoder.Flush | src/fec.cc:62-64 | closes the group with the blocks it has |
| Encoder.FECEncoder.EncodeBlocks | src/fec.cc:70-111 | sends the data blocks cut to the largest one with the true block count, then their parity blocks, and takes the next sequence number |
| Encoder.FECEncoder.LargestBlock | src/fec.cc:76-81 | the block size is that of the largest block |
| Encoder.FECEncoder.ComputeParity | src/fec.cc:93-103 | the parity blocks are the code's parity of the data blocks |
| Encoder.FECEncoder.GetBlock | src/fec.cc:52-59 | takes the first finished block |
| EncoderModel.AddKeepsValid | src/fec.cc:30-49 | adding a block keeps the encoder's invariant: never a full group pending, every pending block fits its buffer |
| EncoderModel.FlushKeepsValid | src/fec.cc:62-111 | so does a flush, and the pending blocks can always be encoded |
| EncoderRun.ClosingGroup | src/fec.cc:70-111 | closing puts out exactly the packets of the group: one sequence number, indices 0..n+f-1, the actual n, equal lengths, parity last |
| EncoderRun.RunFollows | src/fec.cc:24-111 | in every run of payloads and flushes the output is the packets of the planned groups, in order, and the pending blocks hold the rest |
| EncoderRun.PlanConserves | src/fec.cc:24-111 | payloads of closed groups followed by the pending ones are the payloads that were added |
| EncoderRun.PlanNumbers | src/fec.cc:70-111 | every group has 1 to n payloads and the next sequence number |
| EncoderRun.PendingExactly | src/fec.cc:41-47 | a group is closed by a flush or with its n-th payload, never before: the number of pending payloads is the number since the last flush modulo n |
| EncoderRun.PendingStep | src/fec.cc:30-111 | while payloads wait, a flush puts out the packets of their group and a payload joins them, putting out the packets when the group is full; nothing else goes out |
| EncoderRun.PassingAdd | src/fec.cc:34-40 | without FEC a payload goes out at once in a packet of its own with the current number, and the number moves on |
| EncoderRun.SeqCycle | src/fec.cc:105-109 | group k has number (start-1+k) mod 255 + 1: 1..255 in turn, never 0 |
| SequenceWrap.RepeatsExactlyWhen | src/fec.cc:105-109 | two groups share a number exactly when a multiple of 255 groups lies between them |
| Decoder.FECDecoder.AddBlock | src/fec.cc:122-251 | one packet: every branch, the statistics included, as the step function of the decoder model |
| Decoder.FECDecoder.EnterGroup | src/fec.cc:146-207 | leaving an unfinished group, counting gaps, taking over the header |
| Decoder.FECDecoder.Store | src/fec.cc:209-250 | storing, early release, completion and the call of decode |
| Decoder.FECDecoder.Decode | src/fec.cc:253-319 | repair of a group and release from its first missing block on |
| Decoder.FECDecoder.FillTable | src/fec.cc:270-289 | blocks at their indices, blank blocks in the gaps, the gaps in ascending order |
| Decoder.FECDecoder.RepairedBodies | src/fec.cc:291-307 | the erasure decoder is called within its preconditions and its result is the repair |
| Decoder.FECDecoder.Send | src/fec.cc:309-318 | releases the blocks with a length of at most the block size, counts the others as dropped |
| Decoder.FECDecoder.GetBlock | src/fec.cc:322-329 | takes the first released block |
| DecoderModel.Missing | src/fec.cc:278-289 | the missing indices are ascending and are exactly those no stored block has |
| DecoderRun.StoreFirst | src/fec.cc:146-231 | the first data block of a group starts it, and an unfinished earlier group is forgotten |
| DecoderRun.StoreNextData | src/fec.cc:209-223 | invariant: the stored data and parity blocks are the survivors so far, exactly the blocks before the first gap are out |
| DecoderRun.StoreNextParity | src/fec.cc:233-236 | the same for a parity block that does not complete the group |
| DecoderRun.StoreLastData | src/fec.cc:225-231 | the last data block completes the group without any repair |
| DecoderRun.AfterComplete | src/fec.cc:195-200 | further packets of a completed group change nothing |
| RepairStep.FullDecodable | src/fec.cc:239-307 | when decode runs, as many indices are missing as distinct parity blocks are stored: all demands of fec_decode are met |
| RepairStep.RepairedOfFull | src/fec.cc:270-307 | after the repair survivors are as sent and every missing block has its original bytes up to the learned size |
| RepairStep.RepairedHeader | src/fec.cc:281-289 | a repaired block has the header of the first block that arrived |
| RepairStep.StoreLastParity | src/fec.cc:238-249 | the parity block that completes a group makes everything that was held back come out |
| LossyRun.GroupDelivers | src/fec.cc:122-319 | the survivors of a group, in order: what comes out of the decoder, and that it is ready for the next group |
| LossyRun.RunDelivers | src/fec.cc:122-319 | the same for any run of groups with any losses: every packet is accepted, the output is the deliveries of the groups, one after another |
| EndToEnd.LinkDelivers | src/fec.cc:24-319 | encoder, loss of any packets, decoder: for every sequence of payloads and flushes and every surviving subsequence of the packets sent, the output is exactly what each group should deliver |
| EndToEnd.SplitArrivals | src/fec.cc:70-111 | every subsequence of the encoder's output is a choice of survivors in each group |
| Guarantees.CompleteExactlyWhen | src/fec.cc:238-318 | the delivery of a group is complete, in order, byte for byte exactly when at least n of its packets arrive and every lost payload fits the size learned from the data blocks that arrived |
| Guarantees.OutputCompleteExactlyWhen | src/fec.cc:122-319 | the same of what a decoder that is ready for the group puts out |
| Guarantees.OtherwisePrefix | src/fec.cc:220-223 | with fewer than n packets exactly the payloads before the first lost one come out |
| Guarantees.LostPayload | src/fec.cc:283-318 | in the output of the decoder for a repaired group, between what comes out for the payloads before and behind it, a lost payload of length l stands whole if l + 2 is at most the learned size m, cut short if l is m or m - 1, not at all if l is beyond m; all of the last kind are counted as dropped |
| Guarantees.LongerPayloadIsLost | src/fec.cc:209-212 | a new decoder, a group of two, the second data and a parity packet arrive: the first payload, longer by more than two bytes, is dropped and counted |
| Withheld.DecodedCounts | src/fec.cc:309-318 | the repair adds to dropped_blocks the number of lost payloads that are longer than the learned size |
| Withheld.GroupCounts | src/fec.cc:146-319 | the survivors of a group add to dropped_blocks what leaving an unfinished group adds, and the withheld payloads if the group is repaired |
| Counters.EveryPacketCounts | src/fec.cc:133-134 | total_packets and bytes go up with every packet, whatever becomes of it |
| Counters.GroupPacketCounts | src/fec.cc:146-249 | the survivors of a group add to dropped_packets what leaving an unfinished group adds and the packets lost before the n-th one that arrives; the group counts as a block if n of its packets arrive |
| Counters.WithinGroupCounts | src/fec.cc:180-193 | a packet of the group being collected adds the packets between it and the last one, or 1 if it is not newer |
| Counters.LosslessCounts | src/fec.cc:122-251 | a link with FEC that loses nothing counts its closed groups, its packets and bytes, and no drops |
| Counters.PassingDrops | src/fec.cc:128-144 | without FEC, of the packets that arrive less than 255 apart: dropped_packets and dropped_blocks are what the first number is beyond 1, the packets lost since, and one for each skip of 0 |
| Counters.PassingLinkCounts | src/fec.cc:34-40 | a link without FEC that loses nothing counts no drops but what the first number is beyond 1 and one for each skip of 0 |
| Guarantees.NoDataLostNothingLost | src/fec.cc:122-251 | if only parity packets are dropped, every payload of every closed group comes out, in order, once |
| Guarantees.Lossless | src/fec.cc:24-251 | without losses the output is the payloads of the closed groups; with the pending ones, all that was added |
| Guarantees.PassingPackets | src/fec.cc:24-40 | without FEC every run puts out one packet for each payload, with numbers 1..255 in turn from the first one on, index 0 and the whole block |
| Guarantees.PassingLinkDelivers | src/fec.cc:34-40 | without FEC the output is exactly the payloads whose packets arrive |
| ParityOnly.CleanExactlyWhen | src/fec.cc:195-249 | after the survivors of a group nothing of it is left in a decoder that waits for the next one exactly when a data block arrived, or the group has only one |
| ParityOnly.ParityAloneDeliversNothing | src/fec.cc:195-249 | nothing of a group without data blocks comes out |
| NextGroup.LeftoverSpoilsRepair | src/fec.cc:233-249 | parity blocks left from another group make every group of two or more data blocks that loses its first one come out empty, although enough packets arrive |
| ParityOnly.DataMustArrive | src/fec.cc:195-249 | from a new decoder on: a parity packet of one group, then enough packets of the next group to restore it whole, and nothing comes out |
| ParityOnly.NextGroupExactlyWhen | src/fec.cc:146-249 | after the survivors of one group the next one is delivered as it should, whatever of it arrives, exactly when its number is another one and a data block of the first arrived or one of the two has a single data block |
| SequenceWrap.BetweenGroupsExactlyWhen | src/fec.cc:195-200 | after a completed group and for given survivors, the next one is delivered as it should exactly when its number differs from the last one, or nothing of it could be delivered anyway |
| NextGroup.RunKeepsSteady | src/fec.cc:122-251 | whatever packets arrive, the block size is known exactly while a data block is stored |
| NextGroup.DeliveredExactlyWhen | src/fec.cc:146-249 | in every such state the next group is delivered as it should for every choice of survivors with a data block exactly when its number differs from the last one and no parity block was left over, or it has one data block |
| NextGroup.AllDataExactlyWhen | src/fec.cc:146-231 | a group whose data blocks all arrive comes out whole and leaves nothing behind if its number differs from the last one, even after leftover parity blocks; otherwise nothing of it comes out |
| NextGroup.StaleReleases | src/fec.cc:217-223 | with the number of an unfinished group of k stored blocks, block k of a group is released although it comes after a gap |
| NextGroup.FirstNumberZero | src/fec.cc:195-200 | a new decoder delivers a first group whose data blocks all arrive exactly when its number is not 0 |
| NextGroup.LeftoverCollides | src/fec.cc:233-307 | with a leftover parity block of number r, the first data blocks of a group and its own parity block r make the decoder decode with two blocks of one number |
| MixedParity.LeftoverDecodes | src/fec.cc:233-318 | with leftover parity blocks, the first data blocks of the next group and one of its parity blocks make the decoder start; it can decode exactly when no number comes twice and every leftover is long enough, and then releases the solved mixture |
| MixedParity.MixedRightExactlyWhen | src/fec.cc:270-318 | the bytes so released are those that were sent exactly when every leftover equals the group's parity under the leftover's number |
| LoneParity.ParityRun | src/fec.cc:195-249 | of a group without data blocks the first parity block is kept if the group has more than one data block, the others are ignored, and nothing comes out |
| LossyRun.BurstDelivers | src/fec.cc:122-319 | the survivors of a group that has a data block among them, or only one data block: what comes out, and that the decoder is ready for the next group |
| SendLoop.StepAppends | src/fec.cc:30-111 | the encoder only appends to its output, so draining it between calls changes nothing |
| SendLoop.Drain | src/raw_send_thread.cc:38-58 | all data packets are sent, and a parity packet exactly when the message queue and the packets behind it are together not beyond the limit; every packet takes one look |
| SendLoop.HandleMessage | src/raw_send_thread.cc:14-58 | an empty message closes the group of the pending payloads and leaves nothing pending, any other joins them and closes the group when it is full; the packets of a closed group are sent, less the parity that the queue lengths forbid; without FEC the message goes out in one packet |
| SendLoop.Send | src/raw_send_thread.cc:11-61 | over the whole loop and for each of the encoders that the messages name: all data packets of its output are sent, in order, with a subsequence of its parity packets; all of them while the queues are short, none while they are too long; a flush without an encoder is skipped |
| SendLoop.PayloadsAdded | src/raw_send_thread.cc:15-36 | what an encoder is given are the payloads of the messages that name it, without the empty ones, in order |
| SendLoop.FlushedNothingPending | src/raw_send_thread.cc:22-26 | if the last message for an encoder is empty, no payload is left pending |
| Link.TransferWithoutLoss | src/raw_send_thread.cc:11-61 | sending loop, a radio that loses nothing and the decoder of one link with FEC: every payload of every closed group comes out, every payload of all if the last message for the link is a flush, however much parity was shed and whatever the other links send |
| BufferEncoder.SliceBounds | src/fec.cc:361-397 | (n-1) ceil(len/n) < len for n = ceil(len/max), so no slice starts behind the end; none is longer than max or, for a non-empty buffer, empty |
| BufferEncoder.FewestAndShortest | src/fec.cc:361-374 | n is the least number of blocks of at most max bytes, and the slice length the least for n blocks |
| BufferEncoder.SlicesTile | src/fec.cc:389-397 | the slices are the buffer, cut into consecutive pieces |
| BufferEncoder.SlicesFitExactlyWhen | src/fec.cc:361-394 | all slices fit the buffers of their blocks exactly when the slice length is at least two bytes below the maximum block size |
| BufferEncoder.FullBlockDoesNotFit | src/fec.cc:371-394 | the single slice of a buffer of exactly the maximum block size does not fit |
| BufferEncoder.FECBufferEncoder.EncodeBuffer | src/fec.cc:357-405 | the packets of one group that carries the slices, or without parity blocks the slices one by one in numbered packets, or nothing for more than 255 blocks; the sequence number skips 0 |
| BufferEncoder.BufferRestored | src/test_fec.cc:37-68 | from n packets of a buffer's group, one of them a slice that is not the last, every decoder that is ready for the group puts out all slices, which joined are the buffer, and is ready again |
| BufferEncoder.BuffersRestored | src/test_fec.cc:26-68 | buffer after buffer through one decoder: all slices of all buffers come out, in order, which joined are the buffers |
| SharedQueue.Queue.Push | include/shared_queue.hh:38-48 | with room the item is appended; a full queue stays as it is, or holds the item alone if it clears when full |
| SharedQueue.Queue.TryPop | include/shared_queue.hh:26-36 | takes the oldest item if there is one |
| SharedQueue.StepKeepsInv | include/shared_queue.hh:14-48 | every step of every thread keeps mutual exclusion, the bound, the order of items and the wake-up invariant |
| SharedQueue.EveryRunIsSafe | include/shared_queue.hh:14-48 | in every interleaving, spurious wake-ups included: while a consumer is parked, no more items are queued than notifications are due and consumers are awake; popped items followed by queued ones are a subsequence of the pushed ones |
| SharedQueue.NothingLostExactlyWhen | include/shared_queue.hh:38-48 | in every interleaving, popped items followed by queued ones are all the pushed ones exactly when no push found the queue full |
| SharedQueue.PopReturnsTheOldest | include/shared_queue.hh:14-24 | a pop returns only with the oldest item, which leaves the queue |
| SharedQueue.ParkedIsNotStuck | include/shared_queue.hh:14-48 | whenever a consumer is parked beside a queued item, at most four possible steps of threads that are inside a call already make an item be popped |
| RadiotapLayout.FieldsInHeader | src/radiotap/radiotap.c:295-343 | fields start behind the presence words, end within it_len, do not overlap, come in the order of their offsets, have the size the format says, and leave no gap but for their alignment relative to the header's start |
| RadiotapFields.TableOfFields | src/radiotap/radiotap.c:19-50 | a field is as long as its members together and aligned to the widest of them, bit 4 alone to two bytes; the fields are the bits below 23 that have members |
| RadiotapFields.PresenceBit | src/radiotap/radiotap.c:108-112 | bit 8 i + j of presence word k is bit j of byte 4 + 4 k + i |
| RadiotapFields.Le16Bytes | src/radiotap/radiotap.c:102-107 | two-byte numbers have their low byte first |
| RadiotapFields.Le32Bytes | src/radiotap/radiotap.c:110 | four-byte numbers have their low byte first |
| RadiotapFields.HeaderAnnounced | src/radiotap/radiotap.c:231-393 | the fields are exactly those that the presence words announce, in order, up to the first bit without a definition: the set bits below 23 of each first word of the radiotap namespace, and one blob for each vendor; if there are fewer, the next one does not fit, and the code says so |
| RadiotapFields.PlainFields | src/radiotap/radiotap.c:231-393 | of a header with one presence word whose fields fit, exactly the set bits below 23 are reported, ascending |
| RadiotapFields.ReceiverOffsets | src/raw_socket.cc:706-732 | rate, channel, signal and antenna of a header with just these lie at 8, 10, 14 and 15 |
| RadiotapFields.SignalBehindChannel | src/radiotap/radiotap.c:23-25 | the signal of a header with channel and signal lies at 12 |
| RadiotapLayout.LayoutOrdered | src/radiotap/radiotap.c:231-393 | from any presence word on, every field starts at the first aligned offset behind the one before it and has its size |
| RadiotapLayout.SetBitsExact | src/radiotap/radiotap.c:244-245 | every set bit from b on below the namespace bits, each once, ascending |
| Radiotap.BitByBit | src/radiotap/radiotap.c:231-393 | walking bit by bit gives the layout defined word by word: align up, place, advance; restart after a namespace bit; one raw blob per vendor namespace; the same reason for the end |
| Radiotap.ChainLeavesHeader | src/radiotap/radiotap.c:123-141 | presence words that keep announcing another one until the header ends have no last one |
| Radiotap.DescribesBytes | src/radiotap/radiotap.c:90-161 | what makes a header sound, said of its bytes: version 0, a length within what was received, and presence words, all but the last with the top bit of their last byte set, within that length |
| Radiotap.Iterator.Init | src/radiotap/radiotap.c:90-161 | succeeds exactly when version, lengths and the chain of presence words are sound, and then stands before the first field |
| Radiotap.Iterator.Next | src/radiotap/radiotap.c:231-393 | reports the first of the remaining fields and leaves the others, or the layout's final code when none remains; the walk terminates and reads only presence words that Init checked |
| Radiotap.Iterator.VendorNamespace | src/radiotap/radiotap.c:301-321 | a vendor's field is its six bytes and as many as they announce |
| Radiotap.Iterator.NextWord | src/radiotap/radiotap.c:367-380 | the next presence word is one of the checked ones; the shifter is that word and the index restarts or goes on |
| Radiotap.Walk | src/raw_socket.cc:699-732 | the receiver's loop sees exactly the fields that the presence words announce, in order, each at the first aligned offset, and the final code; it sees none exactly when the header is unsound |

## Left out

- Decoder.FECDecoder.AddBlock: requires packets of 6 to 65535 bytes and, for the packet that makes it decode, a group that can be decoded; otherwise the source reads outside its buffers, or, with two stored parity blocks of one number, fills the lost blocks with bytes from a failed inversion (src/fec.c:889-915); which bytes is not modelled. All runs of `EndToEnd` and `LossyRun` are proved to meet this, and `NextGroup.LeftoverCollides` shows a run that does not.
- Decoder.FECDecoder.Send: the counters are modelled as the code counts them, as unbounded numbers; what they count is stated in `Withheld` and `Counters`; on links with FEC it is not the number of packets lost.
- Encoder.FECEncoder.AddBlock: a block is a value here; that the caller's block, the pending block and the sent block are one object changed in place is not captured, nor that blocks may be obtained in advance and added later with an old sequence number; a block with less room than this encoder's maximum block size is excluded.
- Fec.FecEncode: the packet classes call it on buffers copied from the block values, since blocks are values; at the level of `Fec` the buffers are arrays changed in place.
- Guarantees.LostPayload: of a block that comes out cut short only this is said, not which bytes follow the cut.
- BufferEncoder.FECBufferEncoder.EncodeBuffer: requires slices that fit their buffers and, with parity blocks, at most 128 blocks of each kind, which is what the erasure code demands; the number of parity blocks that the FEC ratio asks for is a parameter, and divisions are exact instead of double precision.
- SendLoop.Send: ports, rates and statistics are not modelled; the length of the message queue, read without its lock, is an arbitrary number at every look; a message with data but without an encoder, which the source does not survive, is excluded.
- SharedQueue.Queue.Push: the mutex is not part of the class; locking, waiting and notifying are the steps of the state machine in the same module.
- SharedQueue.EveryRunIsSafe: fairness of the scheduler is not modelled, so an item can be popped but nothing is claimed about when it is.
- Radiotap.Iterator.Next: no registered vendor namespaces and no overrides, as in the receiver; the body is cut into one method per kind of bit; `& (align - 1)` is written as remainder, the alignments being powers of two.
- Radiotap.Walk: which field the receiver copies where is not modelled.
- The length field is two bytes with the low one first; the source uses the byte order of the machine, the same at both ends.
- The assembler kernels and the profiling and debugging macros of src/fec.c, which are not compiled in.
- Repeated and reordered packets at the decoder beyond what one call does to its state.
- Sockets, packet capture, network devices, the HTTP server, configuration, transfer statistics and logging.
