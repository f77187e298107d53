# Nettle: a verified model

Nettle carries messages over a lossy UDP tunnel. A sender groups K messages into
a block and adds redundant packets, N in all; a receiver rebuilds the block from
any K of them. This project models that in Dafny and proves it, from the bits of
the Galois field up to a whole run of the receiver, together with the containers
and the cross-thread protocol it relies on. `dafny verify dfyconfig.toml` checks
everything.

The layers, from the bottom:

- **The field.** `Bits`, `Arithmetic`, `ExpLog`, `Primitivity`, `GaloisField` and
  `Galois`: the exp and log tables built by `galois_init` multiply like
  shift-and-xor modulo the generating polynomial, and the field laws hold, for every
  degree up to 31 and every polynomial for which X has full order. That is then
  shown for the two polynomials the program uses.
- **The code.** `Polynomials`, `CodeTheory`, `Erasures`, `RsCode`, `Detection`,
  `WholeWord`: the shift register divides by the generator, the syndromes are zero
  exactly for codewords, in any order of arrival, up to T changed symbols are always
  detected, and the closed-form solver returns the erased symbol. `SyndromeWrap` and
  `WideField` say for which codes the 32-bit exponents do that, and for which not.
- **The packets.** `Block`, `Bitmap`, `Missing`, `Columns`, `Rs`, `Decoding`,
  `RsDecoder`, `Outcome`, `RoundTrip`: messages of any length, behind a length header
  and striped over one code per byte column, come back from any K packets in any
  order. `BlockSizes` proves for exactly which sizes, `Fitting` what is restored from
  packets that no block sent, and `NegativeSize` that its size can be negative, which
  `NegativeDelivery` follows to the callback.
- **The block decoder.** `FecHeaders`, `FecBlocks`, `DecodePool`, `RsFec`,
  `RsFecEncoder`, `FecRun`, `FecMemory`, `Redelivery`: the timed state machine over a
  pool of decoding contexts and an LRU map, both the real ones of the layers below. Its
  invariant gives delivery at most once within a buffer, the bijection between cache
  and buffers, and the conservation of the counters. `FecRun.Run` is the theorem about
  a run up to completion; `Redelivery` says exactly which messages every packet brings
  out, and `Redelivery.WholeRun` for how long each comes out only once.
- **Deduplication.** `DupFec` and `EchoListener`, over the history theory of `Dedup`
  and the LRU map: which receptions of a run are delivered, told by their places in it.
- **Containers.** `HashChains` and `HashMap` refine a finite map; `IntrusiveList`,
  `LruStore` and `LruMap` refine a recency sequence (`Lru`); `RingQueue` refines a
  sequence, `Heap` a multiset; `Metric` selects in place.
- **Threads.** `WorkerProtocol` interleaves listeners and workers step by step and
  proves them safe; `WorkerProgress` proves that they never get stuck.

Where the code updates things in place the model does too: classes and arrays with
loops, each proved against a function of the old state. C integers are unbounded in
the model except where their width shows: the product in the exponent of a
syndrome is taken modulo 2^32, and the restored size is read as a signed 32-bit
integer. Clocks are parameters.

## What the code does differently from what it says

- `bitmap256_set` and `bitmap256_isset` shift the int constant 1, which C leaves
  undefined from 31 on. With what gcc emits for x86-64 (the count modulo 32, the
  result sign-extended) a block comes back from any K of its packets if and only if N
  is at most 32 (`BlockSizes.RecoversIff32`); N = 32 itself rests on the compiler.
  Beyond, for K >= 2 the packet of degree 32 is turned away as a duplicate, and for
  K = 1 a wrong message is restored, or none. So the round trip is proved for all N up to 32,
  and the encoder, the syndromes and the bound on the erasure list up to 255.
- The product in the exponent of a syndrome wraps at 32 bits. With up to 2^16 checks,
  all encoded messages of a length pass the check if and only if no term loses anything
  but whole turns of the field (`WholeWord.AllPassIffExact`); that is so in every field
  of degree up to 16 (`WholeWord.SmallFieldsPass`), the one in use among them, and
  fails in GF(2^17) with 32769 checks (`WholeWord.WideCodeFails`).
- `galois.h` allows degree 32, but `galois_init` shifts `1U` by the degree: the
  model takes degrees up to 31.
- `galois_inv` returns 1 for 0.
- A hash map of factor 0.75 and capacity 1 has no buckets (`HashMap.ThreeQuarters`), and
  so the first lookup in an LRU map of one entry divides by zero: a block decoder
  with one buffer traps in its initialisation, a deduplicator with a cache of one at
  its first packet. The constructors of the model exclude that capacity.
- `metric_ratio` can call `nth_min` with n = 0. It then returns the minimum if and only
  if the range has one value, or some value is less than all behind it and has exactly
  one smaller in front of it (`Metric.SurvivesIffShielded`); otherwise, as on 2, 1, it
  comes to an empty range and reads in front of the array. With a ratio above 1, n
  exceeds the length; then it returns the maximum or, as on 1, 2, comes to an empty
  range too (`Metric.TwoDoNotSurvive`).
- A restored size that is negative passes the size test of `rs_decode_result`
  (`NegativeSize.NegativeSizeRestored`): the callback is given a negative size
  (`NegativeDelivery.NegativeIsDelivered`). That is
  so exactly if the fourth header byte of the one word that fits the packets is 128 or more
  (`Fitting.SizeIsOfWords`).
- A message can be delivered a second time, in three ways: its block is complete and
  still cached, but has expired (`Redelivery.TwiceByExpiry`); its block was interrupted
  before it was complete, and has expired (`Redelivery.TwiceByInterruption`); or its
  block, complete and not expired, was evicted, which a complete buffer does not resist
  (`Redelivery.TwiceByEviction`). These are all: a raw packet hands out again a message
  that the decoder has had if and only if its block finds room to begin
  (`Redelivery.DeliveredAgain`).
- If the callback of `nt_rs_fec_encode` refuses the message that completes a block,
  no new block begins, and the next message aborts the program
  (`RsFecEncoder.Sender.RefusedThenAborted`).

## Model

| member | source | states |
|---|---|---|
| `Bits.XorAssociates` | src/main/rs/galois.h:67-69 | galois_add is associative (with XorCommutes and XorSelf: addition makes the nonnegative numbers a group of order-two elements) |
| `Bits.XorCancels` | src/main/rs/galois.h:67-69 | adding an element twice gives back the other operand |
| `ExpLog.ShiftXorDistributes` | src/main/rs/galois.c:9-28 | shift-and-xor multiplication modulo the generating polynomial distributes over xor, for every degree up to 31 and every polynomial |
| `ExpLog.ShiftXorExp` | src/main/rs/galois.c:9-28 | multiplying powers of X adds their exponents |
| `ExpLog.ExpMod` | src/main/rs/galois.h:59-61 | when X has order 2^d - 1, exponents may be reduced modulo 2^d - 1 |
| `ExpLog.ExpInjective` | src/main/rs/galois.c:9-28 | the first 2^d - 1 powers of X are pairwise distinct |
| `ExpLog.LogExists` | src/main/rs/galois.c:9-28 | every nonzero element is one of these powers, so the logarithm table is total on them |
| `Primitivity.GF16IsPrimitive` | src/main/rs/galois.h:25-27 | X has order 15 modulo 0b10011 |
| `Primitivity.GF256IsPrimitive` | src/main/rs/galois.h:29-31 | X has order 255 modulo 0b100011101 |
| `GaloisField.MulCommutes` | src/main/rs/galois.h:71-74 | the product is commutative |
| `GaloisField.MulAssociates` | src/main/rs/galois.h:71-74 | the product is associative |
| `GaloisField.MulDistributes` | src/main/rs/galois.h:67-74 | the product distributes over galois_add |
| `GaloisField.MulOne` | src/main/rs/galois.h:71-74 | 1 is neutral |
| `GaloisField.NoZeroDivisors` | src/main/rs/galois.h:71-74 | a product of elements is zero if and only if a factor is |
| `GaloisField.MulCancels` | src/main/rs/galois.h:76-79 | nonzero factors cancel, so quotients are unique |
| `Galois.Tables.Element` | src/main/rs/galois.h:59-61 | the table lookup is X to the given power, for any exponent |
| `Galois.Tables.Multiply` | src/main/rs/galois.h:71-74 | the table lookups multiply like shift-and-xor modulo the generating polynomial |
| `Galois.Tables.Divide` | src/main/rs/galois.h:76-79 | the quotient times the divisor is the dividend |
| `Galois.Tables.Invert` | src/main/rs/galois.h:81-83 | the inverse of a nonzero element times the element is 1; the inverse of 0 comes out as 1 |
| `Galois.Tables.DivideByInverse` | src/main/rs/galois.h:76-83 | division is multiplication by the inverse |
| `Galois.Init` | src/main/rs/galois.c:9-28 | the loop fills the power table; if X has full order, the two tables are inverse to each other and all laws above hold of them |
| `Galois.PolyShiftAddScale` | src/main/rs/galois.h:91-99 | in place, the polynomial becomes its product with X + scale, and nothing behind it changes |
| `Polynomials.ProductRoot` | src/main/rs/rscode.c:13-22 | a product of factors X + z vanishes at each z |
| `Polynomials.ProductNonRoot` | src/main/rs/rscode.c:70-84 | and nowhere else |
| `CodeTheory.CodewordIsMultiple` | src/main/rs/rscode.c:32-40 | message times X^T plus the register that the encoder leaves is the generator times the quotient: the register is the remainder of the division |
| `CodeTheory.CodewordRoot` | src/main/rs/rscode.c:32-40 | every word sent vanishes at X^1 to X^T |
| `Erasures.ListIsSet` | src/main/rs/rscode.c:42-48 | syndromes do not depend on the order in which symbols arrive |
| `Erasures.ReceivedIsErased` | src/main/rs/rscode.c:42-48 | the syndromes of the received symbols of a codeword equal those of the erased ones |
| `Erasures.DivisorNonzero` | src/main/rs/rscode.c:60-85 | the solver's divisor is never zero for distinct degrees below order - 1 |
| `Erasures.ErasureEquation` | src/main/rs/rscode.c:60-85 | the syndromes weighted with sigma are the erased value times the divisor, for every number of erasures |
| `Erasures.ErasureSolved` | src/main/rs/rscode.c:60-85 | so for syndromes of some values at the erased degrees the solution is the erased value |
| `Erasures.SolutionIsUnique` | src/main/rs/rscode.c:60-85 | no other value solves the equation |
| `Erasures.UnlistedSymbolSpoils` | src/main/rs/rscode.c:60-85 | a nonzero symbol that is missing but not listed makes every solution differ from the erased value |
| `Detection.VanishesIffCodeword` | src/main/rs/rscode.c:42-56 | the syndromes of a word are all zero if and only if it is what the encoder makes of its message symbols |
| `Detection.ChangeIsDetected` | src/main/rs/rscode.c:42-56 | with one to T symbols of a codeword changed, some syndrome is not zero |
| `Detection.ErasuresFit` | src/main/rs/rscode.c:60-85 | every list of syndromes, whether of a codeword or not, is that of the values that the solver finds for T erased degrees |
| `Detection.FitsOneWord` | src/main/rs/rscode.c:60-85 | whatever symbols have arrived at all but T degrees, exactly one codeword has them, and its other symbols are the solutions |
| `RsCode.PolyZero` | src/main/rs/galois.c:30-34 | zeroes exactly the coefficients up to the degree |
| `RsCode.Init` | src/main/rs/rscode.c:8-23 | genPoly becomes the product of X + X^i for i from 1 to T |
| `RsCode.Prepare` | src/main/rs/rscode.c:25-30 | the register is that of the empty message, and nothing else changes |
| `RsCode.Encode` | src/main/rs/rscode.c:32-40 | one step of the division, in place on one register, leaving all others alone |
| `RsCode.DecodeSyndromes` | src/main/rs/rscode.c:42-48 | for every degree, each syndrome gains the symbol times X to the 32-bit product of degree and index, wrap-around included; no other syndromes change |
| `RsCode.NoWrap` | src/main/rs/rscode.c:42-48 | below 2^32 that is the term of the symbol |
| `SyndromeWrap.WrapIff` | src/main/rs/rscode.c:42-48 | for a nonzero symbol, the wrapped term is the right one if and only if the multiple of 2^32 that is lost counts whole turns of the field |
| `SyndromeWrap.SmallFieldIsExact` | src/main/rs/rscode.c:42-48 | in a field of degree up to 16 nothing but whole turns is ever lost |
| `WideField.WideIsPrimitive` | src/main/rs/galois.c:9-28 | X has order 2^17 - 1 modulo X^17 + X^3 + 1, the smallest degree at which terms can go wrong |
| `RsCode.CheckSyndromes` | src/main/rs/rscode.c:50-56 | true exactly if all syndromes are zero |
| `RsCode.BuildSigma` | src/main/rs/rscode.c:60-85 | the scratch polynomial becomes the product over the other erasures, and the factor the divisor, with every access in bounds |
| `RsCode.DecodeErasure` | src/main/rs/rscode.c:60-85 | the result is the solution of the weighted equation, whatever the syndromes; if they are those of some values at the erased degrees, it is the erased value |
| `WholeWord.WholeWordVanishes` | src/main/rs/rscode.c:32-48 | the symbols of a codeword, in any order, have all-zero syndromes |
| `WholeWord.EncodeMessage` | src/main/rs/rscode.c:25-40 | feeding a whole message leaves the remainder in the register |
| `WholeWord.EncodeAndCheck` | src/main/rs/rscode.c:8-56 | every message, encoded and then checked in any order of its symbols by rscode_check_syndromes: the check answers whether the wrapped syndromes of the codeword are zero, and they are for all word lengths whose exponents lose whole turns at most |
| `WholeWord.CheckWord` | src/main/rs/rscode.c:42-56 | adding up all symbols of any word and then checking answers whether its wrapped syndromes are zero |
| `WholeWord.PassesIffCodeword` | src/main/rs/rscode.c:42-56 | where exponents lose whole turns at most, a word passes the check, in any order, if and only if it is a codeword |
| `WholeWord.AllPassIffExact` | src/main/rs/rscode.c:42-56 | with up to 2^16 checks, every codeword of a length passes if and only if exponents lose whole turns at most |
| `WholeWord.SmallFieldsPass` | src/main/rs/rscode.c:42-56 | in a field of degree up to 16 every codeword passes |
| `WholeWord.WideCodeFails` | src/main/rs/rscode.c:42-56 | in GF(2^17) with 32769 checks some codeword of full length does not |
| `Bitmap.MaskAnswers` | src/main/rs/rs.c:13-27 | the bitmap answers whether a degree with the same 64-bit word and the same remainder modulo 32 was set |
| `Bitmap.Degree32LooksReceived` | src/main/rs/rs.c:13-27 | after degree 0 alone, degree 32 reads as set |
| `Bitmap.FaithfulIff32` | src/main/rs/rs.c:13-27 | the bitmap is a faithful set of degrees below N exactly if N is at most 32 |
| `Missing.UnsetFits` | src/main/rs/rs.c:185-211 | the erasure list never outgrows its N - K slots, whatever N |
| `Missing.UnsetIsComplement` | src/main/rs/rs.c:185-211 | up to 32 packets, it lists exactly the degrees not received, N - K of them |
| `Columns.EncodeColumn` | src/main/rs/rs.c:105-122 | encoding one byte steps the register of its column and of no other |
| `Columns.SyndromesColumn` | src/main/rs/rs.c:168-180 | adding one byte changes the syndromes of its column and of no other |
| `Rs.Init` | src/main/rs/rs.c:29-36 | the configuration holds a code over GF(256) with N - K checks |
| `Rs.BuildRedundant` | src/main/rs/rs.c:80-93 | copies column j of the registers and returns its length without trailing zeros |
| `Rs.Encoder.constructor` | src/main/rs/rs.c:45-50 | an empty block |
| `Rs.Encoder.Reset` | src/main/rs/rs.c:38-43 | an empty block again |
| `Rs.Encoder.Encode` | src/main/rs/rs.c:95-128 | the registers of all columns hold the checks of the messages so far, with header and padding; degree and result as the block requires; a bad size changes nothing |
| `Rs.Encoder.EncodeResult` | src/main/rs/rs.c:130-143 | the buffer holds the payload of the redundant packet, and the size drops exactly its trailing zeros |
| `Block.RawPayload` | src/main/rs/rs.c:95-128 | in the codewords of all columns, the packet of message i is header, message and padding |
| `Block.ArrivalSyndromes` | src/main/rs/rs.c:168-180 | in every column, what arrived has the syndromes of what did not |
| `Decoding.BuildErasures` | src/main/rs/rs.c:190-211 | the two loops fill the array with missing raw degrees first, all descending |
| `Decoding.HeaderRoundTrip` | src/main/rs/rs.c:224-229 | reading back the four header bytes, with their sign, gives the size |
| `Decoding.RestoreMessage` | src/main/rs/rs.c:222-243 | size and bytes are those of the restored columns; the size is refused if and only if it is above max_data_size, so a negative one is not; for honest arrivals it is the missing message |
| `Fitting.ColumnFits` | src/main/rs/rs.c:168-211 | any K packets, of one block or not, fit exactly one codeword in every column, and what is restored are its symbols |
| `Fitting.SizeIsOfWords` | src/main/rs/rs.c:222-230 | the restored size is the signed number in the header columns of those words; it is negative if and only if its fourth byte is 128 or more |
| `Fitting.DataIsOfWords` | src/main/rs/rs.c:222-243 | the restored bytes are the symbols of those words |
| `RsDecoder.Decoder.constructor` | src/main/rs/rs.c:67-73 | nothing has arrived |
| `RsDecoder.Decoder.Reset` | src/main/rs/rs.c:56-65 | nothing has arrived |
| `RsDecoder.Decoder.Absorb` | src/main/rs/rs.c:168-183 | count, bitmap and the syndromes of all columns are those of the arrivals with the new packet, its unsent bytes taken as zero |
| `RsDecoder.Decoder.Decode` | src/main/rs/rs.c:147-212 | bad degree, bad size and duplicate leave the arrivals alone, each with its error; a new packet is added, and the result is the number of messages to restore once K have arrived |
| `RsDecoder.Decoder.DecodeResult` | src/main/rs/rs.c:214-244 | success if and only if the restored size is at most max_data_size, and then size, degree and bytes as restored; for arrivals from one block, the missing message byte for byte; bad index and size are refused |
| `NegativeSize.NegativeSizeRestored` | src/main/rs/rs.c:222-243 | a packet for which the restored size is -2^31, which is no error, for every max_data_size |
| `Outcome.PaddedInjective` | src/main/rs/rs.c:95-128 | header and padding determine the message |
| `Outcome.Feed` | src/main/rs/rs.c:147-212 | any legal packets, any block size: the context holds those that the bitmap does not take for duplicates, and raw ones are handed on exactly then |
| `Outcome.Ask` | src/main/rs/rs.c:214-244 | asking for every missing message yields what the columns restore, size by size |
| `Outcome.Collect` | src/main/rs/rs.c:147-244 | both together: exactly the messages that are handed back come out of the decoder, for any block size and any packets |
| `RoundTrip.EncodeBlock` | src/main/rs/rs.c:80-143 | K messages give N packets, by descending degree; redundant ones are empty or end in a nonzero byte |
| `RoundTrip.SentIsShortest` | src/main/rs/rs.c:80-93 | of all data that a decoder takes for the packet of one degree, what is sent is the shortest and a prefix of the others: the message itself, or the payload up to its last nonzero byte |
| `RoundTrip.BlockComesBack` | src/main/rs/rs.c:147-244 | of a block of up to 32 packets, any K in any order hand back every message |
| `RoundTrip.DecodeBlock` | src/main/rs/rs.c:147-244 | the decoder returns the block from them |
| `RoundTrip.TransmitBlock` | src/main/rs/rs.c:80-244 | the whole way: for all messages of legal size, any K of the N packets in any order rebuild the block byte for byte |
| `BlockSizes.RefuseDegree32` | src/main/rs/rs.c:163-166 | beyond 32 packets, the decoder turns away the packet of degree 32 as a duplicate after that of degree 0, and stays incomplete |
| `BlockSizes.TwoPacketsLose` | src/main/rs/rs.c:147-212 | so for K >= 2 some K packets of some block lose a message |
| `BlockSizes.OneSymbolWord` | src/main/rs/rscode.c:32-40 | a word of one nonzero message symbol has no zero symbol |
| `BlockSizes.OnePacketLoses` | src/main/rs/rs.c:185-243 | and for K = 1 the packet of degree 0 restores a wrong size, or nothing |
| `BlockSizes.RecoversIff32` | src/main/rs/rs.c:80-244 | for all 1 <= K < N <= 255: every block comes back from every K of its packets in every order if and only if N is at most 32 |
| `FecBlocks.LeftOutMembers` | src/main/rs/rs.c:185-211 | the messages to restore are exactly those that have not arrived |
| `FecBlocks.AcceptInv` | src/main/tunnel/nt_rs_fec.c:94-133 | taking in a packet keeps, for its buffer: no message delivered twice, raw ones delivered on arrival, all delivered at completion unless a restore failed on packets that are not of one block, and what was delivered is right |
| `FecBlocks.CompleteDeliversAll` | src/main/tunnel/nt_rs_fec.c:106-133 | a complete buffer of one block has handed every one of its K messages to the callback exactly once, byte for byte |
| `FecBlocks.RawAndRestoredSumToK` | src/main/tunnel/nt_rs_fec.c:106-121 | raw and restored messages of a complete block sum to K |
| `FecBlocks.CacheFinds` | src/main/tunnel/nt_rs_fec.c:65-93 | the full cache is a bijection between keys and buffers, with key equal to block id |
| `FecBlocks.EvictKeepsCache` | src/main/tunnel/nt_rs_fec.c:82-92 | handing the eldest buffer to a new block keeps the bijection |
| `RsFec.DuplicateIsKnown` | src/main/tunnel/nt_rs_fec.c:100-105 | a packet is a duplicate exactly if its degree has arrived |
| `DecodePool.ResetContext` | src/main/tunnel/nt_rs_fec.c:20-24 | one context of the pool is empty again under the new id, the others are untouched |
| `DecodePool.DecodeAt` | src/main/tunnel/nt_rs_fec.c:100-100 | rs_decode on one context of the pool; the others are untouched |
| `DecodePool.Restore` | src/main/tunnel/nt_rs_fec.c:123-132 | an error if and only if the restored size is above the largest legal one; otherwise the callback is given that size, even if negative, and the restored bytes, whatever has arrived; for packets of one block that is its message |
| `RsFec.AcceptCounts` | src/main/tunnel/nt_rs_fec.c:94-121 | counting conserves blocks and messages |
| `RsFec.ExpireCounts` | src/main/tunnel/nt_rs_fec.c:75-92 | so does resetting a buffer |
| `RsFec.RestoreAll` | src/main/tunnel/nt_rs_fec.c:123-132 | messages go to the callback until it refuses one or the next cannot be restored; what it is given is what is restored, for any arrivals, and right for those of one block |
| `RsFec.AcceptedIsCounted` | src/main/tunnel/nt_rs_fec.c:94-121 | which counter is which: a packet counts as raw by its degree; a block that it completes counts as complete if all K arrivals are raw, and else as restored, with K minus the number of raw arrivals |
| `RsFec.Fec.constructor` | src/main/tunnel/nt_rs_fec.c:136-156 | for two buffers or more, the invariant holds at the start, with every context empty under an id of its own, the last the newest, and all counters zero |
| `RsFec.Fec.Recycle` | src/main/tunnel/nt_rs_fec.c:74-92 | only an unfinished block counts as expired |
| `RsFec.Fec.Lookup` | src/main/tunnel/nt_rs_fec.c:64-83 | the LRU map finds the block's buffer and makes it the newest, or names the eldest |
| `RsFec.Fec.TakeOver` | src/main/tunnel/nt_rs_fec.c:88-92 | a new block takes the eldest buffer; map, pool and counters keep their invariants |
| `RsFec.Fec.Locate` | src/main/tunnel/nt_rs_fec.c:61-93 | finds or makes the buffer: a live block keeps its buffer, a complete one is declined, and a new one is refused exactly if the eldest buffer is live |
| `RsFec.Fec.Receive` | src/main/tunnel/nt_rs_fec.c:94-100 | the packet goes to the context of its block, on the pool itself |
| `RsFec.Fec.Take` | src/main/tunnel/nt_rs_fec.c:106-133 | counting and delivering what an accepted packet brings: every counter by the arrivals, and the outputs byte for byte |
| `RsFec.Fec.Feed` | src/main/tunnel/nt_rs_fec.c:94-133 | errors, duplicates and new packets, with the whole new state |
| `RsFec.Fec.Decode` | src/main/tunnel/nt_rs_fec.c:56-134 | in every reachable state, whatever the callback answers: a header of another tag, N or K is an invalid one, and only such, and changes nothing; which buffer the packet goes to and that no other changes, the new cache, every counter, outputs and error in every case; the callback is called up to its first refusal; a live block is never lost, a complete unexpired one delivers nothing more, a new one is refused exactly if the eldest buffer is live; and the invariants of buffers, cache and counters are kept |
| `RsFecEncoder.Sender.constructor` | src/main/tunnel/nt_rs_fec.c:136-156 | an empty block under the first id |
| `RsFecEncoder.Sender.Encode` | src/main/tunnel/nt_rs_fec.c:26-54 | whatever the callback answers: what is sent, up to its first refusal, are the packets of the block in progress under tag 69, numbered upwards, whichever messages complete it: the message as it is, and redundant data without the zeros at their end; after K messages all N are out and the next block begins, unless the message itself was refused; the program aborts if and only if the size is not legal or the block in progress is full already |
| `RsFecEncoder.PacketIsDetermined` | src/main/tunnel/nt_rs_fec.c:40-51 | so the data of every packet are determined by block and index: the message, or the payload up to its last nonzero byte |
| `RsFecEncoder.Sender.RefusedThenAborted` | src/main/tunnel/nt_rs_fec.c:26-38 | if the callback refuses the message that completes a block, the next legal message aborts |
| `FecRun.Run` | src/main/tunnel/nt_rs_fec.c:26-134 | with arbitrary other traffic, duplicates and losses: if a block finds room, in an empty or expired buffer of its own id or in the eldest, and K of its packets come without a pause beyond the timeout, each of its messages is delivered exactly once, byte for byte; the block is then complete and the newest, and without other traffic no other buffer has changed |
| `FecRun.WelcomesAll` | src/main/tunnel/nt_rs_fec.c:136-156 | a new decoder has room for every id, the seeded ones included |
| `FecRun.Late` | src/main/tunnel/nt_rs_fec.c:64-72 | while a complete buffer is neither expired nor evicted, a late packet of its block delivers nothing and changes no buffer |
| `FecRun.Evict` | src/main/tunnel/nt_rs_fec.c:80-93 | a new block takes the eldest buffer, complete or not; the old block is forgotten, and the next eldest stands in its place |
| `FecMemory.StepRemembers` | src/main/tunnel/nt_rs_fec.c:64-93 | every admitted packet keeps this: a block is cached if and only if fewer other ids than there are buffers were admitted since its last packet, and then those are the ones in front of it |
| `Redelivery.HandOut` | src/main/tunnel/nt_rs_fec.c:56-134 | for every packet of a block and every message: the message is handed out if and only if the block finds room or is in progress, packet and message are both new to it, and the packet is the message itself or completes the block; then once and byte for byte |
| `Redelivery.DeliveredAgain` | src/main/tunnel/nt_rs_fec.c:56-134 | a raw packet whose message the decoder has had hands it out again if and only if its block finds room to begin; it does so byte for byte, and else nothing |
| `Redelivery.Observe` | src/main/tunnel/nt_rs_fec.c:56-134 | any packet at all keeps what is known of a complete block, which delivers nothing, unless it begins that block anew |
| `Redelivery.Linger` | src/main/tunnel/nt_rs_fec.c:56-134 | after a block is complete, over every run: nothing of it comes out before the first packet that begins it anew, which is the first of its packets after the timeout, or the first with room after as many other ids as there are buffers were admitted since its last; a raw one hands out its message again |
| `Redelivery.KeptIsQuiet` | src/main/tunnel/nt_rs_fec.c:56-134 | there is no such packet if those of the block come within the timeout and fewer other ids than there are buffers come between them |
| `Redelivery.WholeRun` | src/main/tunnel/nt_rs_fec.c:26-134 | both together: every message exactly once, byte for byte, up to the first packet that begins the block anew, and over the whole run if the caller sees to that |
| `Redelivery.TwiceByExpiry` | src/main/tunnel/nt_rs_fec.c:64-79 | from a new decoder on, for all messages: a complete block expires in its buffer, and its first message is delivered again |
| `Redelivery.TwiceByInterruption` | src/main/tunnel/nt_rs_fec.c:64-79 | a block that is interrupted after its first message expires, and delivers it again |
| `Redelivery.TwiceByEviction` | src/main/tunnel/nt_rs_fec.c:80-93 | as many packets of other ids as there are buffers evict a complete block that has not expired, and its first message is delivered again |
| `NegativeDelivery.NegativeIsDelivered` | src/main/tunnel/nt_rs_fec.c:122-132 | from a new decoder on, for all sizes of messages, one packet makes the callback be given the size -2^31 |
| `Dedup.CachedIsRecent` | src/main/tunnel/nt_dup_fec.c:28-49 | a cached id has seen fewer than capacity other ids since it was last received |
| `Dedup.ForgottenIsOld` | src/main/tunnel/nt_dup_fec.c:28-49 | a forgotten id has seen at least capacity of them |
| `Dedup.AgainIff` | src/main/tunnel/nt_dup_fec.c:28-49 | in every run, an id that was delivered before is delivered again if and only if that was more than the timeout ago, or at least capacity distinct other ids stand in the log since its last reception |
| `Dedup.FirstIsDelivered` | src/main/tunnel/nt_dup_fec.c:28-49 | an id that was never delivered is |
| `Dedup.HeldBack` | src/main/tunnel/nt_dup_fec.c:28-49 | what is not delivered has a delivery at most the timeout ago before it, with fewer than capacity distinct other ids since its last reception |
| `DupFec.Decoder.constructor` | src/main/tunnel/nt_dup_fec.c:54-62 | the empty run; capacity 0 disables deduplication, and capacity 1 is excluded |
| `DupFec.Decoder.Filter` | src/main/tunnel/nt_dup_fec.c:28-49 | on the LRU map itself, the cache decides exactly as the history does |
| `DupFec.Decoder.Decode` | src/main/tunnel/nt_dup_fec.c:22-52 | a header of another tag or K is invalid, whatever its N, and changes nothing; over every run, a packet is delivered if and only if its id was never delivered, or its last delivery is more than the timeout ago, or at least capacity other ids were received since the id was last received |
| `DupFec.Decoder.AgainExactly` | src/main/tunnel/nt_dup_fec.c:28-49 | the same over the log of every run of the decoder, by places: consecutive deliveries of an id are more than the timeout apart, or capacity distinct other ids have come since its last reception, and only then |
| `DupFec.Decoder.OnlyCopiesAreHeldBack` | src/main/tunnel/nt_dup_fec.c:28-49 | and whatever it does not deliver is a copy that has come in time, with fewer others since |
| `HashChains.PrependKeepsChains` | src/main/utils/hashmap.c:93-103 | linking a new entry keeps the chains a partition of the used entries by bucket with consistent links |
| `HashChains.UnlinkKeepsChains` | src/main/utils/hashmap.c:162-171 | so does unlinking one |
| `HashMap.ThreeQuarters` | src/main/utils/hashmap.c:31-49 | the factor 0.75 gives a usable number of buckets exactly from capacity 2 on |
| `HashMap.FreeEntry` | src/main/utils/hashmap.c:86-92 | fewer keys than entries leave an entry free |
| `HashMap.Probe` | src/main/utils/hashmap.c:86-92 | the probing loop terminates at a free entry |
| `HashMap.Search` | src/main/utils/hashmap.c:148-154 | walking a chain finds a key exactly if the map has it |
| `HashMap.Table.constructor` | src/main/utils/hashmap.c:38-45 | the empty map |
| `HashMap.Table.Reset` | src/main/utils/hashmap.c:21-36 | the empty map, at the given capacity |
| `HashMap.Table.Grow` | src/main/utils/hashmap.c:56-77 | rehashing preserves the map, leaves room, and does not grow again inside |
| `HashMap.Table.PutNew` | src/main/utils/hashmap.c:79-106 | adds the binding, growing at most once |
| `HashMap.Table.Put` | src/main/utils/hashmap.c:111-127 | the map gains the binding; the old value is returned |
| `HashMap.Table.PutIfAbsent` | src/main/utils/hashmap.c:129-143 | adds the binding exactly if the key is absent |
| `HashMap.Table.Get` | src/main/utils/hashmap.c:145-155 | the value of the map |
| `HashMap.Table.Remove` | src/main/utils/hashmap.c:157-177 | the map loses the key; its value is returned |
| `HashMap.Table.Clear` | src/main/utils/hashmap.c:179-182 | the empty map |
| `HashMap.Table.Iterate` | src/main/utils/hashmap.c:184-203 | visits every binding exactly once |
| `IntrusiveList.PushFrontHolds` | src/main/utils/list.h:30-35 | the list gains the entry in front; nodes of other lists are untouched |
| `IntrusiveList.PushBackHolds` | src/main/utils/list.h:37-42 | the list gains the entry at the back; nodes of other lists are untouched |
| `IntrusiveList.DetachHolds` | src/main/utils/list.h:44-50 | the list loses the entry, and the ensure does not fire |
| `IntrusiveList.BackIs` | src/main/utils/list.h:70-74 | the node before the tail is the last entry |
| `LruStore.TakeFromPool` | src/main/utils/lrumap.c:45-45 | pool and queue stay a partition of the other entries |
| `LruStore.FindIs` | src/main/utils/lrumap.c:52-62 | the hash map finds the entry at the key's place in the queue |
| `LruMap.Lrumap.constructor` | src/main/utils/lrumap.c:21-30 | the empty map, all entries in the pool |
| `LruMap.Lrumap.Put` | src/main/utils/lrumap.c:41-50 | the recency sequence gains the binding in front, or the map is full |
| `LruMap.Lrumap.Get` | src/main/utils/lrumap.c:52-62 | returns the binding and makes it the newest |
| `LruMap.Lrumap.Remove` | src/main/utils/lrumap.c:64-73 | the recency sequence loses the key |
| `LruMap.Lrumap.Peek` | src/main/utils/lrumap.c:75-85 | the least recently touched binding |
| `LruMap.Lrumap.MakeEldest` | src/main/utils/lrumap.c:87-99 | the binding moves to the eldest place |
| `LruMap.Lrumap.Iterate` | src/main/utils/lrumap.c:101-112 | all bindings, eldest to newest |
| `RingQueue.Queue.constructor` | src/main/utils/queue.c:13-20 | the empty queue |
| `RingQueue.Queue.Size` | src/main/utils/queue.h:30-32 | the modular distance is the number of queued values |
| `RingQueue.Queue.Push` | src/main/utils/queue.c:26-33 | appends, or refuses at capacity |
| `RingQueue.Queue.Pop` | src/main/utils/queue.c:35-42 | takes the first value, or refuses when empty |
| `WorkerProtocol.InitHolds` | src/main/dispatcher/worker.c:34-51 | the invariant holds at the start, with full pools |
| `WorkerProtocol.ListenerStepKeeps` | src/main/tunnel/nt_listener.c:49-149 | every step of any listener towards any worker keeps it: taking, dropping, claiming, pushing, signalling |
| `WorkerProtocol.WorkerStepKeeps` | src/main/dispatcher/worker.c:17-32 | every step of any worker keeps it: waking, popping, handling, releasing |
| `WorkerProtocol.SignalSucceeds` | src/main/dispatcher/worker.c:85-89 | the eventfd counter always has room for the write, so the branch in which its ensure fails is never taken |
| `WorkerProtocol.ProtocolIsSafe` | src/main/dispatcher/worker.c:17-91 | for any number of listeners and workers and under every interleaving, no ensure fails, that on the eventfd write included, and every single receive buffer is conserved; for every worker, queue length = eventfd counter + rest of the batch + senders between push and write, its slots are conserved, and its messages are handled exactly once in FIFO order |
| `WorkerProgress.WorkerCanStep` | src/main/dispatcher/worker.c:17-32 | in every reachable state, a worker that has accepted more than it has handled, or is in its loop, can take a step, unless it only waits for a listener between push and write |
| `WorkerProgress.WorkerStepCounts` | src/main/dispatcher/worker.c:17-32 | each of its steps leaves it less to do, by a measure of its queue, counter and place in the loop |
| `WorkerProgress.WorkerCatchesUp` | src/main/dispatcher/worker.c:17-32 | so its own steps alone, no more than that measure, lead to everything accepted being handled, and every slot that no listener holds being free |
| `WorkerProgress.ListenerCanStep` | src/main/tunnel/nt_listener.c:49-149 | in every reachable state, a listener can take a buffer if its pool has one, drop what it has received or claim a slot of any worker that has one, push, and write |
| `WorkerProgress.InwardCounts` | src/main/dispatcher/worker.c:17-91 | without new receptions every step of anyone brings the end nearer |
| `WorkerProgress.GoesOnUnlessAtRest` | src/main/dispatcher/worker.c:17-91 | no deadlock: in every state of every run someone can go on without a new reception if and only if not everything is back in its pool and handled |
| `WorkerProgress.RunSettles` | src/main/dispatcher/worker.c:17-91 | from every state of every run there are such steps that lead there, for one worker and for all, with a bound on their number |
| `EchoListener.Listener.constructor` | src/main/tunnel/nt_echo_listener.c:83-88 | all buffers free; capacity 1 is excluded |
| `EchoListener.Listener.Filter` | src/main/tunnel/nt_echo_listener.c:28-52 | cached keys and free buffers always make up the pool, so the allocation never fails and no cached key is freed; the cache decides as the history does |
| `EchoListener.Listener.HandleRead` | src/main/tunnel/nt_echo_listener.c:25-52 | over every run, a request is echoed if and only if its key was never echoed, or its last echo is more than the timeout ago, or at least capacity other keys were received since |
| `EchoListener.Listener.AgainExactly` | src/main/tunnel/nt_echo_listener.c:28-52 | the same over the log of every run of the listener, by places |
| `EchoListener.Listener.OnlyCopiesAreHeldBack` | src/main/tunnel/nt_echo_listener.c:28-52 | and whatever it does not echo is a copy that has come in time, with fewer others since |
| `Heap.RootIsMinimal` | src/main/utils/heap.c:83-94 | the head has a minimal key |
| `Heap.Heap.constructor` | src/main/utils/heap.c:24-29 | the empty heap |
| `Heap.Heap.ShiftUp` | src/main/utils/heap.c:61-73 | restores the order, keeping the multiset of entries |
| `Heap.Heap.ShiftDown` | src/main/utils/heap.c:35-59 | restores the order, keeping the multiset of entries |
| `Heap.Heap.Push` | src/main/utils/heap.c:96-106 | adds the entry, or refuses at capacity |
| `Heap.Heap.Pop` | src/main/utils/heap.c:108-116 | removes an entry of minimal key |
| `Heap.Drain` | src/main/utils/heap.c:108-116 | popping until empty yields all entries sorted by key |
| `Metric.Partition` | src/main/utils/metric.c:93-104 | permutes: smaller values in their order, the pivot, the others |
| `Metric.NthMin` | src/main/utils/metric.c:89-113 | for every n, terminates and permutes only its range; for n from 1 to the number of values it puts the result at position n - 1 with nothing larger before it and nothing smaller after it; for n = 0 it returns the minimum if and only if that is shielded, and for larger n the maximum if and only if it outlasts the pivots; else it reads outside the range |
| `Metric.SurvivesIffShielded` | src/main/utils/metric.c:89-113 | for n = 0 a value survives the pivots if and only if it is alone, or some value is less than all behind it and has exactly one smaller in front of it |
| `Metric.RepeatedMaximumOutlasts` | src/main/utils/metric.c:89-113 | for n above the number of values, a maximum in two places always comes back |
| `Metric.LastMaximumFails` | src/main/utils/metric.c:89-113 | and one that stands alone at the end of two or more never does |
| `Metric.TwoDoNotSurvive` | src/main/utils/metric.c:89-113 | 2, 1 fails with n = 0, and 1, 2 with n = 3 |
| `Metric.SelectedIsNthSmallest` | src/main/utils/metric.c:89-113 | such a value is the element at position n - 1 of the sorted values |

## Left out

- Sockets, epoll, tun/tap, addresses, signals, logging, configuration, command-line tools and the reporting programs: input and output.
- Encryption by the key center: it is a foreign library.
- API and FEC header packing, and distributor parsing: field copies. FEC headers are records of their fields; their payload size, which the decoders do not read, is not part of this model.
- Memory allocation failure, destructors, and the aliasing of two fields or codes that share one table: tables and generator polynomials are values once built.
- `galois_poly_mul` and `rscode_decode_erasures`: the program's decoder does not call them.
- `queue_next`: nothing calls it.
- `nt_dup_fec_encode`: a loop of N equal callbacks.
- Floating point: the averages of `metric.c`, and the factor of a hash map, which is a function from capacity to number of buckets with the bounds in `HashMap.Sizes`.
- Keys up to `equal_func` other than equality: keys of the hash map are compared with the equality of their type.
- The choice of a processor in `nt_listener.c` and the contents of receive buffers: `WorkerProtocol` follows where each buffer is, and lets a listener choose any worker.
- Scheduling: that a thread that can take a step is given the time to take it is not stated; `WorkerProgress` says that it can, and how many steps remain.
- HashMap.Table.constructor: entries, buckets and list links are sequences that the operations reassign, indexed where the code has pointers; that doubling the capacity overflows size_t is not modelled.
- RsFec.Fec.constructor: blocks of more than 32 packets, which `nt_rs_fec_init` accepts, are not covered; for these the decoder loses messages (`BlockSizes.RecoversIff32`).
- RsFec.Fec.Decode: blocks of more than 32 packets are not covered. The answers of the callback are a function of how often it has been called.
- RsFecEncoder.Sender.Encode: block ids come from the shared generator and are a parameter.
- FecRun.Run: packets with the id of the block come from that block, so no id is used again within the window, and the callback accepts everything, as that of `nt_fec_processor.c` does; so do the theorems of `Redelivery`.
- RoundTrip.TransmitBlock: stated for N up to 32, which `BlockSizes.RecoversIff32` shows to be exactly the sizes for which it holds.
- WholeWord.AllPassIffExact: stated for up to 2^16 checks; beyond that, exact exponents are shown sufficient only (`WholeWord.EncodeAndCheck`).
- Metric.NthMin: for n above the number of values, the condition `Outlasts` follows the pivots; it is decided outright for a repeated maximum and for one at the end.
