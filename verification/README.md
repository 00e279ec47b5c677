# ESP driver cores in Dafny

A model of the algorithmic cores of the ESP accelerator drivers, with proofs of what they compute.

- **Viterbi decoder** (`Bits`, `ConvolutionalCode`, `Linearity`, `ParityTable`, `Puncturing`, `Trellis`,
  `MetricSpread`, `Traceback`, `Butterfly`, `Decoding`, `ViterbiDecoder`, `RoundTrip`, `ErrorFreeFrames`,
  `TwoFrames`, `BehindTheFrame`). The decoder of the K = 7, rate 1/2 code of section 17.3.5.5 of IEEE Std
  802.11a-1999, with puncturing to 2/3 and 3/4. The byte-wide kernel, the packed paths, the circular traceback
  buffer and the loop are methods on arrays; they are proved to refine a plain dynamic program whose values are
  the largest agreements over all paths, and error-free frames decode to what was sent, with the exact condition
  for every bit.
- **FFT** (`BitReversal`, `Fourier`, `FourierInverse`, `Fft`). The in-place loops over an array of interleaved
  reals, proved to leave the discrete Fourier sum, and with both signs in turn n times the input. The algebra is
  done once over an arbitrary commutative ring.
- **Contiguous allocator** (`Arithmetic`, `MemoryNodes`, `ChunkPool`, `Placement`, `ContigAlloc`, `ContigFiles`).
  Two memory nodes, three placement policies, live descriptors, open files. Chunks are conserved, live buffers are
  disjoint, the assertions of the source cannot fire but for one, and freeing undoes allocating exactly.
- **5/3 wavelet** (`Wavelet`). In-place lifting, de-interleaving and transposition; the inverse restores every image.
- **Hybrid sort** (`HybridSort`). Quicksort to blocks of ten and one insertion pass, with its cost.
- **Coherence runtime** (`CoherencePolicy`, `EspRuntime`). The shared status under all interleavings of
  accelerators starting and ending.

`dafny verify dfyconfig.toml` checks everything.

## Where the code and its documentation differ

- `viterbi_chunks_init_generic` is commented as preferring state 0. It clears four metrics and leaves the other
  sixty as the frame before left them, so state 0 is never preferred and later frames start with a bias of at most
  12. `TwoFrames.MisreadFrame` gives a fresh decoder two error-free frames of which the second is decoded wrong.
  `ErrorFreeFrames.DecodeExactly` says bit by bit when an error-free frame is decoded right, and
  `RoundTrip.DecodesWhatWasSent` from which bit on it always is.
- The decoding loop reads past the end of a frame that asks for all its data bits, and what the buffer holds there
  decides how its last bits come out: `BehindTheFrame.SameFrameTwice` gives a fresh decoder the same frame with
  different symbols behind it and gets different last bits. `ErrorFreeFrames.DecodeExactly` says of every bit, those
  last ones included, when it is right.
- The least-loaded policy is documented to take DDR 0 only when it is less loaded than the others by more than the
  penalty. It also takes DDR 0 when DDR 1 has no room (`Placement.LeastLoadedChoice`).
- The byte count in `__contig_free` has 32 bits, so its assertion fires for buffers of 4 GiB and more
  (`ContigAlloc.Allocator.FreeDesc`, `ContigAlloc.FreeOfFourGigabytes`).
- The footprint comparison of the coherence runtime has 32 bits, so a big job can pass it by wrapping
  (`CoherencePolicy.AdmittedBeyondThreshold`, `CoherencePolicy.WrapBreaksCapacity`). The last-level cache is
  overfilled exactly when such a job does not fit beside those in it (`CoherencePolicy.RunIsWithinCapacity`).

## Model

| member | source | states |
|---|---|---|
| ErrorFreeFrames.DecodeExactly | drivers/vitbfly2/app/viterbi_decoder_generic.c:416-714 | The decoder object on an error-free frame, at every rate (patterns and depths written out), in every state it can be in and whatever lies behind the frame: each bit that was sent is right if and only if, with the metrics the frame starts with and the cost of going on behind the frame, the difference paths that keep the bit lead those that flip it, or tie and the tie is settled for them |
| ErrorFreeFrames.BitIsRight | drivers/vitbfly2/app/viterbi_decoder_generic.c:416-714 | The same for one bit, any pattern, any traceback depth and any symbols behind the frame. Of the bits sent only the end state has a say in who leads: the lead is a computable least number of kept ones per start state, to which the symbols missed behind the frame are added |
| RoundTrip.DecodesWhatWasSent | drivers/vitbfly2/app/viterbi_decoder_generic.c:416-714 | What follows for all frames at once: every bit from 18 times the spread of the initial metrics on is right. Spread 0 (first frame) gives all bits, a spread of at most 12 all bits from 216 on |
| RoundTrip.DecodeSent | drivers/vitbfly2/app/viterbi_decoder_generic.c:416-714 | The same through the decoder object, rate by rate: given symbols punctured with 1,1 (1/2), 1,1,1,0 (2/3) or 1,1,1,0,0,1 (3/4), each bit from 18 times the bound of the metrics on is the bit sent, as far as step 8(i / 8 + 5, 9 or 10) + 6 lies within the encoding; `ErrorFreeFrames.DecodeExactly` has the others |
| RoundTrip.DecodeReceived | drivers/vitbfly2/app/viterbi_decoder_generic.c:416-714 | On an encoding punctured with the pattern of its rate, written out, the stream that is decoded holds the encoding at the kept positions and erasures elsewhere, and the frame leaves normalised metrics |
| TwoFrames.MisreadFrame | drivers/vitbfly2/app/viterbi_decoder_generic.c:744-751 | A concrete failure: a fresh decoder is given two error-free frames from state 0, one at rate 1/2 and an all-zero one at rate 3/4, and delivers a one as the first bit of the second |
| TwoFrames.SecondFrameMisread | drivers/vitbfly2/app/viterbi_decoder_generic.c:744-751 | Why: with the metrics the first frame leaves, the paths that flip the first bit lead those that keep it |
| TwoFrames.FirstMetrics | drivers/vitbfly2/app/viterbi_decoder_generic.c:397-402 | After the first frame the end state leads by at least two and is at least three high |
| TwoFrames.EndsApart | drivers/vitbfly2/app/viterbi_decoder_generic.c:269-281 | At rate 1/2 a path that ends elsewhere than the one sent misses at least two symbols |
| TwoFrames.PartingLosesTwo | drivers/vitbfly2/app/viterbi_decoder_generic.c:269-274 | Paths that part from a common state miss both symbols of that step |
| BehindTheFrame.SameFrameTwice | drivers/vitbfly2/app/viterbi_decoder_generic.c:468-694 | A concrete input: a fresh decoder is given the encoding of 48 zero bits at rate 1/2, once with zeros behind it and once with other symbols; bit 47 comes out as 0 and as 1 |
| BehindTheFrame.LastBitDepends | drivers/vitbfly2/app/viterbi_decoder_generic.c:468-694 | The same for the paths the decoder commits to |
| BehindTheFrame.ZeroLosesThree | drivers/vitbfly2/app/viterbi_decoder_generic.c:269-281 | Why: with the other symbols behind, every path whose bit 47 is a zero misses at least three symbols |
| BehindTheFrame.OtherLosesTwo | drivers/vitbfly2/app/viterbi_decoder_generic.c:269-281 | And a path whose bit 47 is a one misses only two |
| BehindTheFrame.StartsApartLoseTwo | drivers/vitbfly2/app/viterbi_decoder_generic.c:269-281 | At rate 1/2 a path of at least 33 steps that starts elsewhere than the one sent misses at least two symbols |
| BehindTheFrame.JoiningLosesTwo | drivers/vitbfly2/app/viterbi_decoder_generic.c:269-274 | Paths that join miss both symbols of that step |
| Linearity.EncodeOfDiff | drivers/vitbfly2/app/viterbi_decoder_generic.c:753-757 | The code is linear: along the difference of two paths the encoder sends the difference of what it sends along them |
| Linearity.EndOfDiff | drivers/vitbfly2/app/viterbi_decoder_generic.c:753-757 | So are the end states: the difference path ends in the difference of the ends |
| ErrorFreeFrames.LossIsOnes | drivers/vitbfly2/app/viterbi_decoder_generic.c:247-281 | What a path misses of an error-free frame are the kept ones along its difference from what was sent |
| ErrorFreeFrames.LossWithinAndBehind | drivers/vitbfly2/app/viterbi_decoder_generic.c:247-281 | What a path misses splits into the kept ones of its difference within the frame and what it misses behind it, where it goes on from the end state sent plus the difference |
| ErrorFreeFrames.RestIsLeast | drivers/vitbfly2/app/viterbi_decoder_generic.c:269-281 | Behind the frame: the recursion bounds what any path from a state misses |
| ErrorFreeFrames.Onward | drivers/vitbfly2/app/viterbi_decoder_generic.c:269-281 | And some inputs attain it |
| ErrorFreeFrames.DistIsLeast | drivers/vitbfly2/app/viterbi_decoder_generic.c:269-281 | The distance recursion bounds the kept ones of every difference path that keeps, or flips, a given bit, together with the cost of the state it ends in |
| ErrorFreeFrames.Nearest | drivers/vitbfly2/app/viterbi_decoder_generic.c:269-281 | And some difference path attains it |
| ErrorFreeFrames.LeadIsUpperBound | drivers/vitbfly2/app/viterbi_decoder_generic.c:269-281 | No path that keeps, or flips, the bit stands better than the lead |
| ErrorFreeFrames.LeadIsAttained | drivers/vitbfly2/app/viterbi_decoder_generic.c:269-281 | Some path stands that well |
| ErrorFreeFrames.ChosenStandsBest | drivers/vitbfly2/app/viterbi_decoder_generic.c:371-395 | The chosen path stands best, and precedes all others that stand as well |
| Decoding.ChosenComesFirst | drivers/vitbfly2/app/viterbi_decoder_generic.c:276-383 | Ties: among all paths of largest weight the chosen one has the lowest end state and, where it parts from another with that end state, the state in the upper half |
| Trellis.SurvivorTakesUpperHalf | drivers/vitbfly2/app/viterbi_decoder_generic.c:276-280 | Among the heaviest paths into a state the survivor is in the upper half at the last difference |
| Trellis.PrecedesOneWay | drivers/vitbfly2/app/viterbi_decoder_generic.c:276-383 | That order never goes both ways |
| Decoding.FrameEnds | drivers/vitbfly2/app/viterbi_decoder_generic.c:397-402 | The metrics a frame leaves are the values at its last store less the smallest of them |
| Decoding.LastStore | drivers/vitbfly2/app/viterbi_decoder_generic.c:468-694 | Which store is the last of a frame with n bits |
| ViterbiDecoder.Decoder.Decode | drivers/vitbfly2/app/viterbi_decoder_generic.c:416-714 | One frame, rate by rate: bit i is that of the best path of 8(i / 8 + d) + 6 steps, d being 5, 9 or 10, over the input or over the input depunctured with the rate's pattern, starting from the old metrics with the first four cleared. Best is the largest weight of all paths, equals settled by the tie order. No byte operation wraps on the way, and the decoder is ready for the next frame |
| ViterbiDecoder.Decoder.RunLoop | drivers/vitbfly2/app/viterbi_decoder_generic.c:468-694 | The loop over `in_count`, `out_count` and `n_decoded` ends, reads only symbols the frame needs, and delivers the decoded bits in order from index 0 |
| ViterbiDecoder.Decoder.KernelTurnOfLoop | drivers/vitbfly2/app/viterbi_decoder_generic.c:470-692 | A turn with `in_count % 4 == 0` keeps the whole decoder in step with the dynamic program, and stores exactly when `in_count % 16 == 8` |
| ViterbiDecoder.Decoder.RunButterfly | drivers/vitbfly2/app/viterbi_decoder_generic.c:572 | A kernel call advances metrics and paths by two steps of the maximum-agreement recurrence, less the amount subtracted so far; after each of the two steps all 64 metrics lie within twelve of each other |
| ViterbiDecoder.Decoder.StoreWindow | drivers/vitbfly2/app/viterbi_decoder_generic.c:679-691 | The c-th store files the window, normalises, and from the `d_ntraceback`-th on unpacks the eight bits of its output byte most significant first |
| ViterbiDecoder.Decoder.DepunctureFrame | drivers/vitbfly2/app/viterbi_decoder_generic.c:112-144 | No aligned pair of the buffer is doubly erased afterwards, the stale rest behind the frame included, provided that a rate 3/4 frame that ends on an erasure (next row) does not meet a stale erasure |
| ViterbiDecoder.StraddlingPair | drivers/vitbfly2/app/viterbi_decoder_generic.c:124-140 | Depuncturing stops on an erasure in the middle of a pair if and only if the rate is 3/4 and the frame has 4a + 3 symbols, and at which position then |
| ViterbiDecoder.DepuncturedPairs | drivers/vitbfly2/app/viterbi_decoder_generic.c:112-144 | A depunctured prefix before a stale rest erases no aligned pair unless an erasure at its end meets a stale one |
| ViterbiDecoder.Decoder.Reset | drivers/vitbfly2/app/viterbi_decoder_generic.c:716-742 | The depth, the pattern and `d_k` of every encoding, and the initialisation |
| ViterbiDecoder.Decoder.ViterbiChunksInit | drivers/vitbfly2/app/viterbi_decoder_generic.c:745-765 | Only the first four metrics are cleared, the other sixty survive from the frame before; the traceback rows are zeroed while the store position stays; the branch tables hold the encoder's outputs |
| ViterbiDecoder.Decoder.InitBranchTables | drivers/vitbfly2/app/viterbi_decoder_generic.c:753-757 | The table entries computed from `PARTAB` and the stored polynomials are the encoder's two outputs on input 0 |
| ViterbiDecoder.Decoder.constructor | drivers/vitbfly2/app/viterbi_decoder_generic.c:60-70 | Zeroed static storage satisfies the between-frames invariant |
| ViterbiDecoder.TracebackBuffer.GetOutput | drivers/vitbfly2/app/viterbi_decoder_generic.c:353-405 | Stores the row, walks `ntraceback - 1` windows back from the first best state, subtracts the smallest metric from all and clears the paths |
| ViterbiDecoder.TracebackBuffer.Store | drivers/vitbfly2/app/viterbi_decoder_generic.c:361-369 | After the store the circular buffer holds the last `ntraceback` rows of the history extended by this one, from any start position |
| ViterbiDecoder.TracebackBuffer.CopyRow | drivers/vitbfly2/app/viterbi_decoder_generic.c:364-369 | One slot receives the row and no other slot changes |
| ViterbiDecoder.TracebackBuffer.FindBest | drivers/vitbfly2/app/viterbi_decoder_generic.c:371-383 | First index of the largest metric, that metric, and the smallest metric |
| ViterbiDecoder.TracebackBuffer.TraceBack | drivers/vitbfly2/app/viterbi_decoder_generic.c:385-395 | The walk through circular slots equals the walk through the unbounded history |
| ViterbiDecoder.SlotAdvance | drivers/vitbfly2/app/viterbi_decoder_generic.c:362 | Advancing the store position keeps every older row in place but the overwritten one |
| ViterbiDecoder.SlotRetreat | drivers/vitbfly2/app/viterbi_decoder_generic.c:391 | Stepping back with wrap-around reaches the next older row |
| Trellis.ValueIsUpperBound | drivers/vitbfly2/app/viterbi_decoder_generic.c:269-281 | Optimality, upper bound: no path ending in t weighs more than the recurrence's value at t |
| Trellis.SurvivorAttainsValue | drivers/vitbfly2/app/viterbi_decoder_generic.c:269-323 | Optimality, attained: the survivor of t ends in t and weighs exactly that value |
| Trellis.BestSurvivorIsOptimal | drivers/vitbfly2/app/viterbi_decoder_generic.c:371-379 | The survivor of a best state is a path of largest weight among all start states and all inputs |
| Trellis.ValueSpread | drivers/vitbfly2/app/viterbi_decoder_generic.c:372-402 | From step six on, any two values differ by at most twelve |
| Trellis.ValueGrowth | drivers/vitbfly2/app/viterbi_decoder_generic.c:269-281 | A value exceeds that of its ancestor k - w steps earlier by between 0 and 2(k - w) |
| MetricSpread.FrameStaysClose | drivers/vitbfly2/app/viterbi_decoder_generic.c:269-402 | In every frame, first or later, any two values differ by at most twelve after every step, also in the first steps of a later frame, where four metrics are cleared and sixty are those of the frame before |
| MetricSpread.ValuesAreSettled | drivers/vitbfly2/app/viterbi_decoder_generic.c:269-281 | From step six on the value of a state exceeds that of another by no more than the ones the encoder sends along the difference of their six bits |
| MetricSpread.NormalisedIsSettled | drivers/vitbfly2/app/viterbi_decoder_generic.c:397-402 | So do the metrics a frame leaves |
| MetricSpread.GainsDiffer | drivers/vitbfly2/app/viterbi_decoder_generic.c:269-281 | The agreements of two paths differ by no more than the ones along their difference |
| MetricSpread.CloseBehind | drivers/vitbfly2/app/viterbi_decoder_generic.c:269-281 | For 1 <= n <= 5 every state is reached in n steps from a state that has not been cleared and is at most 12 - 2n behind a given one |
| MetricSpread.KernelStaysClose | drivers/vitbfly2/app/viterbi_decoder_generic.c:269-281 | The byte metrics after each step of a kernel call lie within twelve of each other |
| Decoding.StepTracks | drivers/vitbfly2/app/viterbi_decoder_generic.c:269-323 | The byte kernel's row step is the recurrence's step, whatever has been subtracted |
| Decoding.KernelTracks | drivers/vitbfly2/app/viterbi_decoder_generic.c:244-338 | Two row steps track two steps of the recurrence |
| Decoding.RowBounds | drivers/vitbfly2/app/viterbi_decoder_generic.c:269-298 | Headroom: j steps after a normalisation all metrics lie in 0..12+2j and all paths below 2^j; with at most eight steps the metrics stay at most 28. How far apart they are is the matter of `MetricSpread.FrameStaysClose` |
| Decoding.RowFitsKernel | drivers/vitbfly2/app/viterbi_decoder_generic.c:269-298 | Six steps into a window no byte sum and no paired shift of the next two steps overflows |
| Decoding.NormaliseTracks | drivers/vitbfly2/app/viterbi_decoder_generic.c:397-402 | Subtracting the minimum raises the total subtracted to the smallest value and opens an empty window |
| Decoding.BestStateOfRow | drivers/vitbfly2/app/viterbi_decoder_generic.c:371-379 | Normalisation never moves the best state |
| Decoding.ChosenIsOptimal | drivers/vitbfly2/app/viterbi_decoder_generic.c:371-395 | The path the decoder commits to at a store has largest weight over all paths |
| Decoding.DecodedBitIsBest | drivers/vitbfly2/app/viterbi_decoder_generic.c:371-395 | A decoded bit is that of the path of 8(i / 8 + d) + 6 steps that outweighs, or precedes, all others |
| Decoding.BestPathIsUnique | drivers/vitbfly2/app/viterbi_decoder_generic.c:276-383 | There is one such path |
| Decoding.WalkedByteIsOutput | drivers/vitbfly2/app/viterbi_decoder_generic.c:683-688 | Bit 7 - j of the byte walked to at store c is output bit 8(c - n) + j of the chosen path |
| Decoding.KernelTurn | drivers/vitbfly2/app/viterbi_decoder_generic.c:470-691 | Kernel calls happen at most six steps into a window, and a store exactly when the window is full, eight steps after the store before (six for the first) |
| Decoding.ReadsFit | drivers/vitbfly2/app/viterbi_decoder_generic.c:468-572 | While bits are missing, the next kernel call reads within the symbols the frame needs |
| Decoding.FirstMax | drivers/vitbfly2/app/viterbi_decoder_generic.c:371-379 | First index of a largest entry |
| Traceback.PathEquation | drivers/vitbfly2/app/viterbi_decoder_generic.c:283-323 | The state at a window's start followed by the inputs since is the path byte followed by the state now |
| Traceback.WindowByte | drivers/vitbfly2/app/viterbi_decoder_generic.c:386-391 | A full window's path byte shifted right by two is the survivor's state at the window's start |
| Traceback.WindowByteIsSurvivor | drivers/vitbfly2/app/viterbi_decoder_generic.c:300-323 | From step six on that byte is eight consecutive bits of the survivor |
| Traceback.WalkFollowsSurvivor | drivers/vitbfly2/app/viterbi_decoder_generic.c:386-392 | Walking stored bytes back follows the one survivor of the state the walk started in |
| Traceback.TracebackYieldsSurvivorBits | drivers/vitbfly2/app/viterbi_decoder_generic.c:385-395 | The byte walked to is bits 8(c - n) to 8(c - n) + 7 of that survivor, aligned at index 0 |
| Butterfly.ViterbiButterfly2 | drivers/vitbfly2/app/viterbi_decoder_generic.c:201-338 | The whole kernel, with byte arithmetic, selection masks and paired shifts, equals two applications of the plain add-compare-select step, when no pair is doubly erased and the row has headroom |
| Butterfly.Step | drivers/vitbfly2/app/viterbi_decoder_generic.c:244-324 | One pass over both sixteen-state groups is one step of the row |
| Butterfly.GroupSums | drivers/vitbfly2/app/viterbi_decoder_generic.c:246-274 | The four sums of a group are the lower and upper candidates of its 32 successors |
| Butterfly.GroupMetrics | drivers/vitbfly2/app/viterbi_decoder_generic.c:246-311 | The group's metrics are those of the step, its decisions tell which half won, and the other half of the row is untouched |
| Butterfly.GroupPaths | drivers/vitbfly2/app/viterbi_decoder_generic.c:283-323 | The group's paths are the chosen predecessor's, shifted, with the bit it lost appended |
| Butterfly.BranchMetrics | drivers/vitbfly2/app/viterbi_decoder_generic.c:247-267 | Both branch metrics count the received symbols the encoder agrees with, for all sixteen states |
| Butterfly.BranchMetricsAgree | drivers/vitbfly2/app/viterbi_decoder_generic.c:247-266 | The byte formulas for full pairs and single erasures compute that agreement on all four branches of a butterfly |
| Butterfly.AddMetrics | drivers/vitbfly2/app/viterbi_decoder_generic.c:269-274 | The byte sums do not wrap |
| Butterfly.CompareSelect | drivers/vitbfly2/app/viterbi_decoder_generic.c:276-281 | The masks select the larger sum, and the second on a tie |
| Butterfly.ShiftPaths | drivers/vitbfly2/app/viterbi_decoder_generic.c:283-295 | The paired sixteen-bit shifts double all sixteen paths |
| Butterfly.PairedShiftIsTwoShifts | drivers/vitbfly2/app/viterbi_decoder_generic.c:284-294 | The paired shift equals two byte shifts if and only if the low byte is below 128 |
| Butterfly.SelectPaths | drivers/vitbfly2/app/viterbi_decoder_generic.c:304-315 | The masks select a whole path byte |
| Butterfly.Interleave | drivers/vitbfly2/app/viterbi_decoder_generic.c:300-323 | Even and odd successors land interleaved in this group's half, the other half is untouched |
| ConvolutionalCode.PolynomialsAreGenerators | drivers/vitbfly2/app/viterbi_decoder_generic.c:753-757 | The bit-reversed polynomials compute the generators 133 and 171 of section 17.3.5.5 of IEEE Std 802.11a-1999 |
| ConvolutionalCode.OutputsFlip | drivers/vitbfly2/app/viterbi_decoder_generic.c:269-274 | Flipping the newest or the oldest register bit flips both outputs, which is why one table entry serves four branches |
| ParityTable.PartabIsParity | drivers/vitbfly2/app/viterbi_decoder_generic.c:72-105 | The 256-entry table is the parity of its index |
| Puncturing.Depuncture | drivers/vitbfly2/app/viterbi_decoder_generic.c:112-144 | All received symbols end up at the kept positions in order, every other position holds 2, the loop stops at the kept position in front of which exactly that many are kept, and nothing behind is touched; at rate k / (k + 1), n symbols in whole periods fill 2kn / (k + 1) positions |
| Puncturing.InsertReceived | drivers/vitbfly2/app/viterbi_decoder_generic.c:125-138 | One symbol is placed at the next kept position and the erasures behind it are marked |
| Puncturing.SkipErased | drivers/vitbfly2/app/viterbi_decoder_generic.c:135-138 | The skipping loop ends at the next kept position after at most two erasures |
| Puncturing.PuncturedOfDepunctured | drivers/vitbfly2/app/viterbi_decoder_generic.c:112-144 | Puncturing a depunctured stream gives the received symbols back |
| Puncturing.DepuncturedOfPunctured | drivers/vitbfly2/app/viterbi_decoder_generic.c:112-144 | Depuncturing a punctured stream gives back every kept symbol and erases the others |
| Puncturing.PairNotErased | drivers/vitbfly2/app/viterbi_decoder_generic.c:107-109 | No pattern erases an aligned pair altogether |
| Puncturing.RankDensity | drivers/vitbfly2/app/viterbi_decoder_generic.c:107-109 | Exactly how many positions of a prefix are kept, for every length |
| Puncturing.PositionHasRank | drivers/vitbfly2/app/viterbi_decoder_generic.c:107-144 | Where depuncturing stops after n symbols, in closed form: a kept position with n kept positions in front of it |
| Puncturing.PositionIsUnique | drivers/vitbfly2/app/viterbi_decoder_generic.c:107-144 | There is no other |
| Puncturing.WholePeriods | drivers/vitbfly2/app/viterbi_decoder_generic.c:107-144 | The rate law: whole periods at rate k / (k + 1) become 2k / (k + 1) times as many positions |
| Puncturing.NextPosition | drivers/vitbfly2/app/viterbi_decoder_generic.c:125-138 | While symbols are missing no turn of the loop goes beyond it |
| Linearity.EncodeIsSlidingSum | drivers/vitbfly2/app/viterbi_decoder_generic.c:753-757 | Each output of the encoder is a sum of five bits of the stream of start state and inputs |
| RoundTrip.FullGainIsAgreement | drivers/vitbfly2/app/viterbi_decoder_generic.c:247-274 | A path gains one per received symbol at best, and exactly that if and only if it agrees with all of them |
| RoundTrip.ThreeQuartersObservable | drivers/vitbfly2/app/viterbi_decoder_generic.c:109 | Sixteen steps at rate 3/4 reveal any difference of two start states |
| RoundTrip.TwoThirdsObservable | drivers/vitbfly2/app/viterbi_decoder_generic.c:108 | Eleven steps at rate 2/3 do |
| RoundTrip.PathIsUnique | drivers/vitbfly2/app/viterbi_decoder_generic.c:107-109 | Two paths of sixteen or more steps that send the same kept symbols are the same path, start state included |
| RoundTrip.LossSplits | drivers/vitbfly2/app/viterbi_decoder_generic.c:269-281 | The symbols a path misses split at any step into those of its head and those of its tail |
| RoundTrip.TailIsUnbeaten | drivers/vitbfly2/app/viterbi_decoder_generic.c:269-281 | If no path from the same start misses fewer symbols, the same holds of every tail |
| RoundTrip.FirstBlockLoses | drivers/vitbfly2/app/viterbi_decoder_generic.c:107-109 | Two paths from different states differ in a received symbol within eighteen steps |
| RoundTrip.UnbeatenJoinsSent | drivers/vitbfly2/app/viterbi_decoder_generic.c:269-323 | An unbeaten path that misses at most n symbols is on the sent path from step 18n on |
| RoundTrip.ChosenIsUnbeaten | drivers/vitbfly2/app/viterbi_decoder_generic.c:371-395 | The chosen path is unbeaten and misses no more symbols than the initial metrics are spread |
| Fft.Transform | drivers/test/fft_test.c:95-146 | With the sines of halved angles (half-angle formulas, cosines as parameters) the array ends up holding the discrete Fourier transform with the unit-circle point (cosine, sine) of the last angle as root, of its input, or of the bit-reversed input when bit reversal is off; the same with any exact steps |
| Fft.HalvedAnglesAreTwiddles | drivers/test/fft_test.c:107-115 | The steps 1 - 2 sin^2(half) + i sin at halved angles are the points of the unit circle at those angles; the first is -1 and each squares to the one before |
| Fft.AnglesAreUnique | drivers/test/fft_test.c:111-114 | Half-angle formulas and the side the half angles are on determine all sines and cosines: there is one such table per sign |
| Fft.AnglesOfFour | drivers/test/fft_test.c:111-114 | The table of a transform of four points |
| Fft.TransformIsDft | drivers/test/fft_test.c:101-145 | All stages done, entry k is the sum of x[j] w^(jk) |
| Fft.ThereAndBack | drivers/test/fft_test.c:95-146 | Transforming with the sines of halved angles and then with those of the opposite angles multiplies every point by n |
| Fft.BackFromSpectrum | drivers/test/fft_test.c:107-143 | The transform of a transform with inverse steps is n times the input |
| Fft.OppositeSteps | drivers/test/fft_test.c:111-115 | Changing the sign of the angle conjugates the steps; conjugates of exact steps are exact, and their inverses, because exact steps lie on the unit circle |
| FourierInverse.InverseOfSpectrum | drivers/test/fft_test.c:107-143 | Over any commutative ring: evaluating the spectrum at the powers of the inverse root gives 2^b times the coefficient, which is the orthogonality of the powers |
| FourierInverse.SpectrumSplits | drivers/test/fft_test.c:117-133 | A spectrum is the sum and the difference of the spectra of the even and the odd half, the latter twiddled |
| FourierInverse.FoldedSpectrum | drivers/test/fft_test.c:117-133 | Evaluated where the half-way power is 1 it doubles the even half, where it is -1 the odd half |
| Fourier.StagesComputeDft | drivers/test/fft_test.c:107-143 | Over any commutative ring: the stages on reversed input compute the defining sum, when the first step is -1 and each squares to the one before |
| Fourier.BlockIsEval | drivers/test/fft_test.c:117-133 | After b stages every block of 2^b entries holds its polynomial at the powers of that stage's step |
| Fourier.EvalSplit | drivers/test/fft_test.c:117-133 | p(z) = even(z^2) + z odd(z^2) |
| Fourier.EvalIsDftSum | drivers/test/fft_test.c:107-143 | Evaluation at w^k is the sum of x[j] w^(jk) |
| Fourier.TwiddleIsRoot | drivers/test/fft_test.c:111-115 | The step of stage b is a 2^b-th root of -1 |
| Fourier.HalfTurn | drivers/test/fft_test.c:129-132 | Half a turn further a power changes sign and its square stays, so one product serves two entries |
| Fourier.ReversedHalves | drivers/test/fft_test.c:70-93 | The halves of a bit-reversed block hold the even and the odd entries, bit-reversed |
| Fft.RunStage | drivers/test/fft_test.c:112-141 | All columns of a stage, with the twiddle factor equal to the column's power of the step |
| Fft.RunColumn | drivers/test/fft_test.c:118-133 | One column finishes the same pair of every block and leaves all other entries |
| Fft.CombinePair | drivers/test/fft_test.c:119-132 | The in-place update adds and subtracts the twiddled entry, in complex arithmetic |
| Fft.PairCombines | drivers/test/fft_test.c:119-132 | One butterfly finishes exactly one pair of the next stage |
| Fft.StageEnds | drivers/test/fft_test.c:117-142 | All pairs finished, every block has doubled |
| Fft.TwiddleRecurrence | drivers/test/fft_test.c:135-139 | The recurrence multiplies by the complex number 1 - s2 + i s |
| Fft.ComplexLaws | drivers/test/fft_test.c:125-139 | The complex operations form a commutative ring |
| BitReversal.FftRev | drivers/test/fft_test.c:56-68 | The early-ending loop reverses all 32 bits |
| BitReversal.ReverseShiftedDown | drivers/test/fft_test.c:81-82 | Shifted right by 32 - bits it is the reversal of the low bits |
| BitReversal.ReverseInvolution | drivers/test/fft_test.c:70-93 | Reversing twice is the identity below 2^n |
| BitReversal.FftBitReverse | drivers/test/fft_test.c:70-93 | The guarded swap loop leaves entry rev(i) at i, for every i |
| BitReversal.SwapPoints | drivers/test/fft_test.c:85-90 | Real and imaginary parts of two entries change places, nothing else does |
| BitReversal.ReversedTwice | drivers/test/fft_test.c:70-93 | Doing it twice restores the array |
| ContigAlloc.Allocator.constructor | drivers/contig_alloc/contig_alloc.c:664-714 | Loading establishes the safety invariant: chunk k of a node at its start plus k chunk sizes, every chunk free on its node, counters 0, memory cut to whole chunks |
| ContigAlloc.Allocator.ChunksCreate | drivers/contig_alloc/contig_alloc.c:436-454 | The node's chunks are appended in address order |
| ContigAlloc.Allocator.Alloc | drivers/contig_alloc/contig_alloc.c:311-340 | Keeps the safety invariant; fails, changing nothing, exactly when the size is 0 or beyond the free chunks (of one node, under least-loaded) or the kernel is out of memory. A buffer has as many chunks as hold the bytes and none more; each node's old list is the chunks taken from it, in order, followed by its new list; the nodes follow the policy as it is documented; the recorded node is the first with most chunks. The size assertion never fires |
| ContigAlloc.DivRoundUp | drivers/contig_alloc/contig_alloc.c:323 | The least number of chunks that hold the bytes |
| ContigAlloc.Allocator.RefusedInBytes | drivers/contig_alloc/contig_alloc.c:313-318 | The refusal test in bytes is the one in free chunks |
| ContigAlloc.Allocator.FilledIsTaken | drivers/contig_alloc/contig_alloc.c:130-277 | What the placement yields, read off the lists: order, counters, policy and the node with most |
| ContigAlloc.Allocator.FreeBytes | drivers/contig_alloc/contig_alloc.c:314-318 | The loop sums the free bytes of all nodes |
| ContigAlloc.Allocator.RequestIsSmall | drivers/contig_alloc/contig_alloc.c:317-324 | A size within the free memory needs no more chunks than are free, and fewer than 2^32 |
| ContigAlloc.Allocator.AllocDesc | drivers/contig_alloc/contig_alloc.c:279-309 | A descriptor is registered, newest first, or nothing changes |
| ContigAlloc.Allocator.AllocChunks | drivers/contig_alloc/contig_alloc.c:288-300 | Each policy fills the descriptor with its own placement and records the node holding most of it |
| ContigAlloc.Allocator.AllocateChunk | drivers/contig_alloc/contig_alloc.c:130-141 | Takes the head of the node's list; the list is never empty when called |
| ContigAlloc.Allocator.GetNextDdrNode | drivers/contig_alloc/contig_alloc.c:120-128 | Finds the next node with a free chunk before coming round to the start; neither assertion fires |
| ContigAlloc.Allocator.FindMostAllocated | drivers/contig_alloc/contig_alloc.c:163-172 | The recorded node counts at least as many chunks as any other and more than every lower one |
| ContigAlloc.Allocator.AllocPreferred | drivers/contig_alloc/contig_alloc.c:143-175 | All chunks of the preferred node first, then the other's |
| ContigAlloc.Allocator.LeastLoadedAllocOk | drivers/contig_alloc/contig_alloc.c:177-184 | True exactly when one node alone has room for all chunks |
| ContigAlloc.Allocator.GetLeastLoadedDdrNode | drivers/contig_alloc/contig_alloc.c:186-204 | The search returns the node of the specification |
| ContigAlloc.Allocator.AllocLeastLoaded | drivers/contig_alloc/contig_alloc.c:206-225 | All chunks from the chosen node, which has room, or failure with nothing changed |
| ContigAlloc.Allocator.AllocBalanced | drivers/contig_alloc/contig_alloc.c:227-277 | The cluster walk from the least loaded node |
| ContigAlloc.Allocator.BalancedStep | drivers/contig_alloc/contig_alloc.c:244-261 | One turn of the cluster walk finds a node with a free chunk |
| ContigAlloc.Allocator.FreeDesc | drivers/contig_alloc/contig_alloc.c:343-365 | Each node's new list is the buffer's chunks from it, in the order they were taken, followed by its old list, and the counters go down by as many chunks; the final assertion fires if and only if the buffer is 4 GiB or more, because its counter has 32 bits; otherwise the safety invariant is kept |
| ContigAlloc.FreeOfFourGigabytes | drivers/contig_alloc/contig_alloc.c:343-357 | A concrete failure: 4 GiB allocated from two regions of 8 GiB with chunks of 1 MiB, and freed |
| ContigAlloc.Allocator.ReturnChunks | drivers/contig_alloc/contig_alloc.c:348-353 | The loop returns chunk after chunk; bytes are counted modulo 2^32 |
| ContigAlloc.Allocator.GiveFirst | drivers/contig_alloc/contig_alloc.c:349-352 | One chunk goes home and its node's counter never goes below zero |
| ContigAlloc.Allocator.AllocRequest | drivers/contig_alloc/contig_alloc.c:520-542 | Which error a request ends with, and when; one that succeeds yields a buffer as `Alloc` says; one that fails for any reason, a too-small result array and a failing copy to user space included, leaves every list in its order and every counter, unless giving the buffer back makes the assertion fire, and exactly when that happens |
| ContigAlloc.Allocator.GiveUp | drivers/contig_alloc/contig_alloc.c:527-542 | Freeing the newest buffer restores the pool and the descriptor list exactly |
| ContigAlloc.Allocator.LiveBuffersDisjoint | drivers/contig_alloc/contig_alloc.c:421-424 | Any two chunks of live buffers, of one or of two, occupy disjoint addresses when the two regions do |
| ContigAlloc.Allocator.CountersAreNatural | drivers/contig_alloc/contig_alloc.c:352 | While chunks are conserved no counter is negative |
| ContigAlloc.Allocator.EverythingReturned | drivers/contig_alloc/contig_alloc.c:348-356 | Without live buffers every chunk is on its own node's list and nothing counts as allocated |
| ContigAlloc.CounterIsNatural | drivers/contig_alloc/contig_alloc.c:352 | No more chunks are free on a node than were made there |
| ContigAlloc.CreatedApart | drivers/contig_alloc/contig_alloc.c:421-424 | Distinct chunks made at start-up do not overlap |
| ContigAlloc.CreatedOnce | drivers/contig_alloc/contig_alloc.c:443-453 | No chunk is made twice |
| ContigAlloc.RequestFits | drivers/contig_alloc/contig_alloc.c:317-324 | Rounding up to chunks holds the request, with less than a chunk to spare, and stays within the free chunks |
| ChunkPool.PutBackUndoesAfter | drivers/contig_alloc/contig_alloc.c:130-357 | Freeing what any allocation took restores both free lists element for element and both counters |
| ChunkPool.AfterConserves | drivers/contig_alloc/contig_alloc.c:137-138 | Allocation only moves chunks |
| ChunkPool.PutBackConserves | drivers/contig_alloc/contig_alloc.c:349-350 | Freeing only moves chunks |
| ChunkPool.AfterAccounted | drivers/contig_alloc/contig_alloc.c:140 | Allocation keeps counter plus free chunks equal to the node's memory, and every free chunk on its own node |
| ChunkPool.PutBackAccounted | drivers/contig_alloc/contig_alloc.c:352 | Freeing keeps it |
| ChunkPool.RoomIsChunks | drivers/contig_alloc/contig_alloc.c:181 | A node has room for n chunks in bytes exactly when it lists n free chunks |
| ChunkPool.AfterByNode | drivers/contig_alloc/contig_alloc.c:130-141 | A node's old list is the chunks taken from it, in order, followed by its new list |
| ChunkPool.PutBackByNode | drivers/contig_alloc/contig_alloc.c:348-353 | Putting chunks back puts each node's part in front of its list, the one taken first in front |
| Placement.AfterSession | drivers/contig_alloc/contig_alloc.c:279-357 | Any properly nested sequence of allocations and frees, by any policies, with failing requests among them, leaves the pool exactly as it was |
| Placement.PlacementIsFeasible | drivers/contig_alloc/contig_alloc.c:288-300 | Every policy's placement can be served from the free lists whenever the request was accepted |
| Placement.PlacementIsPlaced | drivers/contig_alloc/contig_alloc.c:143-277 | What the policies promise: the first node while it lasts; one node for all, node 0 if and only if it is less loaded as documented; clusters in turn from the less loaded node on as far as the lists last |
| Placement.WalkWithoutClusters | drivers/contig_alloc/contig_alloc.c:244-258 | With clusters of size zero the balanced policy is the preferred one from the other node |
| Placement.PreferredTurn | drivers/contig_alloc/contig_alloc.c:155-157 | Each turn of the preferred policy finds a node with a free chunk before returning to its start |
| Placement.PreferredCounts | drivers/contig_alloc/contig_alloc.c:154-160 | How many chunks each node gives under the preferred policy |
| Placement.BalancedTurn | drivers/contig_alloc/contig_alloc.c:244-258 | Each turn of the balanced policy does |
| Placement.LeastLoadedChoice | drivers/contig_alloc/contig_alloc.c:186-204 | Node 0 is chosen if and only if node 1 has no room, or node 0 has room and is less loaded by more than the penalty |
| Placement.LeastLoadedHasRoom | drivers/contig_alloc/contig_alloc.c:206-220 | Whenever some node has room for all chunks, the chosen one has |
| Placement.WalkIsRoundRobin | drivers/contig_alloc/contig_alloc.c:240-262 | Chunk i comes from node (d + i / cluster_size) mod 2 for all i, if and only if no node fills up on the way |
| Placement.RoundRobinIsBalanced | drivers/contig_alloc/contig_alloc.c:240-262 | In that case the starting node is ahead by between 0 and cluster_size chunks, by an exact formula |
| ContigFiles.Driver.Open | drivers/contig_alloc/contig_alloc.c:461-471 | A new file holds nothing |
| ContigFiles.Driver.AllocIoctl | drivers/contig_alloc/contig_alloc.c:509-545 | A successful request yields a buffer as `Alloc` says, held by exactly the requesting file; when a request fails and when the assertion fires, both exactly |
| ContigFiles.Driver.FreeIoctl | drivers/contig_alloc/contig_alloc.c:547-570 | A handle is freed if and only if this very file holds it; then one entry with that handle leaves this file's list and no other list changes; otherwise nothing changes |
| ContigFiles.Driver.FreeAt | drivers/contig_alloc/contig_alloc.c:559-568 | The descriptor leaves the file and the allocator, all others stay |
| ContigFiles.Driver.Release | drivers/contig_alloc/contig_alloc.c:473-484 | Closing frees exactly the file's buffers, every other file keeps its own; the assertion fires if and only if the file holds a buffer of 4 GiB or more |
| ContigFiles.Driver.NothingLeaks | drivers/contig_alloc/contig_alloc.c:473-484 | When no file holds a buffer, all chunks are home and the counters are back at their start |
| Wavelet.PerfectReconstruction | drivers/visionchip/app/visionchip.c:172-214 | The inverse transform restores every image with even sides of at least 2 |
| Wavelet.TransformAndBack | drivers/visionchip/app/visionchip.c:172-214 | `dwt53` followed by `dwt53_inverse` on the same array leaves every pixel as it was |
| Wavelet.Dwt53 | drivers/visionchip/app/visionchip.c:192-214 | In the pixels: there is a half-way table of which the rows' bands are those of the image, and the result holds the bands of its rows. A high entry is an odd pixel less the floored mean of its neighbours (the last one less its left neighbour), a low entry an even pixel plus a quarter of the two high entries beside it (the first one plus half of one) |
| Wavelet.Dwt53Inverse | drivers/visionchip/app/visionchip.c:172-188 | The result is the image whose two passes of bands are the given table |
| Wavelet.TableDeterminesArray | drivers/visionchip/app/visionchip.c:192-214 | An image is determined by its table of pixels, so restoring the table restores the array |
| Wavelet.InverseOfForward | drivers/visionchip/app/visionchip.c:65-169 | One pass of the inverse undoes one pass of the transform, transposition and interleaving included |
| Wavelet.ForwardOfInverse | drivers/visionchip/app/visionchip.c:65-169 | And the other way round |
| Wavelet.UnliftedOfLifted | drivers/visionchip/app/visionchip.c:69-165 | Lifting a row is undone exactly, rounding and borders included |
| Wavelet.LiftedOfUnlifted | drivers/visionchip/app/visionchip.c:69-165 | And the other way round, so lifting is a bijection on rows |
| Wavelet.RowTranspose | drivers/visionchip/app/visionchip.c:65-117 | The second buffer holds the bands of all rows, written out in the old pixels, as columns, the low band above the high one |
| Wavelet.RowTransposeInverse | drivers/visionchip/app/visionchip.c:119-169 | The second buffer holds the rows that have these bands |
| Wavelet.ForwardIsBands | drivers/visionchip/app/visionchip.c:65-117 | The forward pass yields the bands as they are written out |
| Wavelet.BandsAreForward | drivers/visionchip/app/visionchip.c:65-117 | And the bands determine it |
| Wavelet.EvenSlopeHasNoDetail | drivers/visionchip/app/visionchip.c:71-83 | Interior details of a row that rises evenly are zero, the last one is the slope |
| Wavelet.ConstantImage | drivers/visionchip/app/visionchip.c:71-113 | A constant image keeps its value in the quarter that is low in both directions and is zero elsewhere |
| Wavelet.DetailSpreads | drivers/visionchip/app/visionchip.c:85-96 | Raising an odd pixel away from both ends by four raises its detail by four, both even neighbours by one, and nothing else |
| Wavelet.TableEntry | drivers/visionchip/app/visionchip.c:72-112 | Row after row: entry (r, c) of a table is element r * cols + c of the array |
| Wavelet.LiftRow | drivers/visionchip/app/visionchip.c:71-102 | One row in place, all others untouched |
| Wavelet.UnliftRow | drivers/visionchip/app/visionchip.c:133-165 | One row in place, all others untouched |
| Wavelet.Predict | drivers/visionchip/app/visionchip.c:71-83 | Odd pixels become details while even pixels stay, the last pixel from its left neighbour alone |
| Wavelet.Update | drivers/visionchip/app/visionchip.c:85-102 | Even pixels become approximations computed from finished details |
| Wavelet.UndoUpdate | drivers/visionchip/app/visionchip.c:133-150 | Even pixels lose their update |
| Wavelet.UndoPredict | drivers/visionchip/app/visionchip.c:152-165 | Odd pixels regain their prediction from restored even pixels |
| Wavelet.Scatter | drivers/visionchip/app/visionchip.c:109-113 | Row i becomes column i, low frequencies in front |
| Wavelet.Gather | drivers/visionchip/app/visionchip.c:127-131 | Column i becomes row i, interleaved |
| Wavelet.TargetOfSource | drivers/visionchip/app/visionchip.c:109-131 | The two index maps are inverse to each other |
| HybridSort.Quicksort | drivers/sort/app/sort.c:132-137 | Sorted permutation of the input; between the phases the array is blocked, and the last pass moves each entry at most 9 places and makes at most 9 moves per entry |
| HybridSort.QuicksortInner | drivers/sort/app/sort.c:116-130 | The range is cut into ordered blocks of at most MAX_THRESH entries, permuted, and nothing outside changes; a range of at most ten entries is left alone |
| HybridSort.Partition | drivers/sort/app/sort.c:62-110 | Everything before the returned index is at most the pivot, everything behind is greater, the pivot is a median of three, the rest is untouched |
| HybridSort.ChoosePivot | drivers/sort/app/sort.c:72-78 | The sign tests pick an index whose entry is a median of the three |
| HybridSort.MoveAcross | drivers/sort/app/sort.c:88-103 | The scanning loops end within the range and separate it |
| HybridSort.QuicksortJoins | drivers/sort/app/sort.c:121-127 | Partition and two recursive calls compose to a blocked permutation of the range |
| HybridSort.BlockedJoin | drivers/sort/app/sort.c:121-127 | Two blocked parts around a pivot are a blocked whole |
| HybridSort.InsertionSort | drivers/sort/app/sort.c:42-60 | Sorted permutation, with exactly as many moves as the input has inversions |
| HybridSort.InsertNext | drivers/sort/app/sort.c:50-58 | The entry lands behind all entries not greater than it, the greater ones shift by one |
| HybridSort.BlockedInversions | drivers/sort/app/sort.c:132-137 | In a blocked array an entry has at most nine greater ones in front of it |
| HybridSort.FewInversions | drivers/sort/app/sort.c:132-137 | At most nine inversions per entry in all |
| CoherencePolicy.RunIsAccounted | drivers/esp/esp.c:134-275 | Over every interleaving of starts and ends: each counter is the count or sum over the running jobs modulo 2^32, integer-divided shares included, and at most one job is fully coherent |
| CoherencePolicy.RunIsWithinCapacity | drivers/esp/esp.c:134-275 | Over every interleaving: the big jobs that were given the last-level cache never exceed it, per bank or in all, nor five in number, if and only if no start passes the guard with a wrapped sum while it does not fit beside the big jobs there |
| CoherencePolicy.ConfigureKeepsAccounting | drivers/esp/esp.c:134-209 | A start keeps the accounting, wrap-around or not |
| CoherencePolicy.ReleaseKeepsAccounting | drivers/esp/esp.c:245-275 | The end of any running job keeps it, and no counter, the shares per node included, goes below what it must take away |
| CoherencePolicy.OneFullyCoherent | drivers/esp/esp.c:138-171 | Of two running jobs at most one is fully coherent |
| CoherencePolicy.ChoiceIsGranted | drivers/esp/esp.c:134-184 | What an access is given, in terms of the running jobs: full coherence for a request of it and for a small automatic access if and only if no running job has it, the last-level cache otherwise; the last-level cache for a big automatic access if and only if it is the fifth at most and the bytes in its memory, counted in 32 bits, stay within the bank or the cache, none otherwise; what it asked for in all other cases |
| CoherencePolicy.OccupiedIsTotal | drivers/esp/esp.c:143-154 | The counters of the status stand for the bytes that the running jobs occupy |
| CoherencePolicy.SharesAddUp | drivers/esp/esp.c:190-208 | The shares of an access add up to its footprint, with less than a byte per bank left over |
| CoherencePolicy.ConfigureKeepsCapacity | drivers/esp/esp.c:152-184 | One start exceeds the capacity bounds if and only if its sum passes the guard by wrapping and it does not fit beside the big jobs there |
| CoherencePolicy.ReleaseKeepsCapacity | drivers/esp/esp.c:245-275 | Ends keep them |
| CoherencePolicy.AdmittedBeyondThreshold | drivers/esp/esp.c:156-184 | A big job is given the last-level cache beyond its threshold if and only if fewer than five accelerators are active and its sum wraps to a value within the threshold; within the threshold it leaves the running jobs within capacity |
| CoherencePolicy.WrapBreaksCapacity | drivers/esp/esp.c:156-184 | Two concrete jobs for which that happens |
| EspRuntime.Runtime.constructor | drivers/esp/esp.c:119-132 | The start state is accounted for |
| EspRuntime.Runtime.RuntimeConfig | drivers/esp/esp.c:134-209 | The field updates are the configuration step |
| EspRuntime.Runtime.MoveFootprints | drivers/esp/esp.c:190-275 | The loops over banks add or take away exactly the job's shares |
| EspRuntime.Runtime.UpdateStatus | drivers/esp/esp.c:245-275 | The field updates are the release step |
| EspRuntime.Runtime.Begin | drivers/esp/esp.c:401-420 | A start is given what the running jobs leave it (`CoherencePolicy.ChoiceIsGranted`), keeps the accounting, and the capacity as long as no start has overfilled the cache by a wrapped sum |
| EspRuntime.Runtime.End | drivers/esp/esp.c:437-452 | An end, of any running device, keeps both |

## Left out

- ViterbiDecoder.Decoder.Decode: streams in which both symbols of a pair are erased, for which the kernel's byte formulas compute no agreement. At rate 1/2 the caller could pass one; at rate 3/4 a frame of 4a + 3 symbols could meet an erasure left by an earlier frame, and exactly that is excluded. It also asks that the input holds the symbols the loop reads and that the last position of the depunctured frame lies within the static buffer; the source checks neither.
- RoundTrip.DecodesWhatWasSent: the bound is not sharp; the exact condition is `ErrorFreeFrames.BitIsRight`.
- Butterfly.ViterbiButterfly2: pairs with both symbols erased, for which the byte formulas do not compute an agreement.
- Fft.Transform: exact arithmetic over `real` with the sine values as parameters; floating-point rounding and the approximated `sin` are not modelled. Bit reversal of a single point is excluded because the source then shifts by 32.
- Wavelet.Dwt53: pixels are unbounded integers, so signed overflow is not modelled; the failing allocation of the second buffer is not either.
- HybridSort.Quicksort: elements are `real`, so NaN, infinities and the rounding of the sign tests to zero are not modelled.
- ContigAlloc.Allocator.Alloc: two memory nodes, as the least-loaded search assumes, and a first node below 2; the parameter check of the source lets 2 through. Memory sizes are unbounded, with fewer than 2^32 chunks.
- ContigAlloc.Allocator.FreeDesc: after the assertion has fired nothing is claimed about later calls.
- ContigFiles.Driver.AllocIoctl: buffers allocated by kernel code that belong to no file, `mmap`, and requests that cannot be read from user space.
- CoherencePolicy.RunIsWithinCapacity: assumes that fewer than 2^32 accelerators run at a time, so that their number does not wrap.
- EspRuntime.Runtime.Begin: the error exits that leave a device locked and counted appear only as a start without an end; at most two banks, as the status array allows, and a memory node below 2.
- The flush request, which writes a device's coherence without the lock, and everything that touches device registers.
- The hardware path, the check-value and test-data blocks of the Viterbi file, and its accelerator interface.
- Interrupts, character-device registration, module parameters and the p2p set-up.
- The cache and probe drivers, which poll hardware; the per-accelerator drivers and application mains, which wrap the same calls.
- Sparse matrix-vector product, histogram, median filter and adder tiling, which would only add easy members.
