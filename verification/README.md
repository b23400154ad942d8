# A verified model of the librtlsdr tools

The repository is a C driver library for RTL2832 dongles and the programs built on it. This
project models the parts of it that carry the most state, arithmetic or concurrency, and proves
what they are for. Each module follows one part of the sources:

- `FixFft`, `BitReversal`, `FftMeaning`, `FftRange`, `FftError`, `FftInput`: the fixed-point FFT
  of `rtl_power`. One method follows the loops of `fix_fft` over an arbitrary arithmetic.
  Instantiated with exact arithmetic it is the scaled discrete Fourier transform. Instantiated
  with the 16-bit operations of the program it does not wrap on inputs of bounded modulus, and
  its result is then within a bound per stage of the transform. `FftInput` says which sample
  pairs stay below that modulus and shows some that do not.
- `FrameBarrier`: the protocol between the receiver threads and the sending thread of
  `rtl_hpsdr`, as a state machine in which every lock, wait, broadcast, store and flag access
  is a step and the threads interleave freely.
- `HpsdrFrame`: the layout of the shared UDP frame, `load_packet`, and the receiver counts.
- `Downsample`: the decimating filter and the sample accounting across packets and blocks.
- `AsyncRead`: the streaming engine of the library, with the USB host as an environment.
- `Tuning`: the mutual recursion of tuning and switching the sampling mode.
- `Adsb`: the in-place Manchester decoder and the frame collector of `rtl_adsb`, for replies
  in the format of ICAO Annex 10 Volume IV, section 3.1.2.2.
- `Getopt`: the permuting scanner of the bundled GNU getopt, against a recursive parser that
  never moves an argument.
- `R82xxRegisters`, `R82xxPll`, `E4kPll`: the register copies of the R820T/R828D driver, and
  the two PLL syntheses.
- `RtlFm`: the boxcar resamplers and the nine-tap filter of `rtl_fm`.
- `SentFrames`: the three parts of `rtl_hpsdr` together, from the filtered samples of each
  receiver to the bytes of the frames.
- `RtlTcp`: the bounded buffer queue of `rtl_tcp`, as a linked list and as runs over it.
- `Eeprom`: the printer and parser of the configuration EEPROM, whose strings are descriptors
  of section 9.6.7 of the USB 2.0 specification.
- `Pow2s`, `Words`, `Collections`: powers of two, 16-bit words, the few facts of nonlinear
  arithmetic, and the sequence and set functions the others share.

Methods keep the form of the C code (arrays rewritten in place, objects whose fields change,
loops) and are proved against functions; the lemmas then say what these functions mean.

Where a promise turned out not to hold everywhere, there is an input on which it fails and the
exact condition under which it holds:

- The smallest sine table, `N_WAVE` of 2, reads a sine as the cosine it needs; the transform of
  two values is then right exactly when the second value is zero (`FftMeaning.SmallestTable`).
- The loop of `manchester` ends on a buffer exactly when no turn leaves it stuck: close to the
  end, on a bad bit whose second sample is 255 (`Adsb.EndsUnlessStuck`). It ends on every buffer
  exactly when at least one error is allowed or the quality is 0 or 5 (`Adsb.EndsOnEveryBuffer`,
  with [255, 255] as the input for all other parameters, `Adsb.ManchesterLoops`). A magnitude is
  never 255, so on the samples of a dongle it ends whatever the parameters (`Adsb.MagnitudesEnd`).
- `scanner` of `rtl_power` multiplies its sample pairs by a window of up to 256 in 16 bits. Pairs
  of modulus at most 127 are windowed and transformed without wrapping, and 127 is the largest
  such bound (`FftInput.SafeExactly`). A pair of (128, 0) leaves 16 bits at the window. The
  corners of the sample range fit there, but can wrap in the transform: an output of 39243 comes
  out as -26293 (`FftInput.CornersWrap`).
- The error bound of `e4k_compute_pll_params` holds exactly for the targets of at least one step
  of the fraction whose quotient by the crystal fits the 8 bits of `z`, that is, with
  `target * r` below 256 times the crystal (`E4kPll.ComputePllParams`). Below one step `-EINVAL`
  comes back as a frequency (`E4kPll.OneHertz`); 1.1 GHz on a 16 MHz crystal has the quotient 275
  and comes out as 76 MHz (`E4kPll.HighTarget`). Nothing calls `is_z_valid`
  (src/tuner_e4k.c:396). The comment at src/tuner_e4k.c:519 puts the largest `x` at 65536; it is
  65535.
- The R82xx PLL keeps its integer part in 8 bits. With the VCO in range and a crystal below
  2^31 Hz, the fraction is met exactly when 512 times the crystal exceeds the VCO frequency, and
  register 0x14 is right exactly when the integer part is also at least 13, as it is for every
  crystal below 32768 kHz (`R82xxPll.RightExactlyWhenFitting`, `R82xxPll.FittingInteger`). Only
  then, or when the low 8 bits happen to exceed the limit too, is the frequency refused as it
  should be (`R82xxPll.NarrowIsExact`). 48 MHz on a 3 MHz crystal is accepted with an integer part
  of 0 instead of 512 (`R82xxPll.SlowCrystal`). Twice a crystal of 2^31 Hz is 0 in 32 bits, and
  divided by (`R82xxPll.TwiceTheCrystal`).
- The approximation of its fraction never divides by zero exactly for references below 32768 kHz
  (`R82xxPll.NeverDividesByZero`). 28672032 Hz on a 32.768 MHz crystal does, with a fraction of
  2 kHz left (`R82xxPll.FastCrystal`).
- `low_pass_real` divides by zero on its first sample exactly when `rate_out2` is above `rate_out`
  (`RtlFm.GainIsZero`, `RtlFm.Demodulator.LowPassRealInPlace`); its caller only asks for a positive
  `rate_out2` (src/rtl_fm.c:777).
- `rtlsdr_read_async` returns the result of the last cancel of its last pass: a negative one for a
  transfer that was never submitted, although it stops as it should (`AsyncRead.SecondSubmitFails`).
- A tune may return 0 with a recorded frequency of 0 although another was asked for, when the
  first attempt failed and switching the sampling mode tuned again (`Tuning.ThreeTunes`).
- The folded nine-tap filter is the plain one exactly for palindromic tables
  (`RtlFm.FoldedIsDirect`).
- `shadow_store` passes a negative length to `memcpy` exactly for a nonempty write that starts
  above 0x23; register 0x24 is the first (`R82xxRegisters.CopyInBounds`). Of the other writes,
  exactly those that start at 0x05 or above or end below it keep the copies of the registers
  equal to the chip, whatever they write (`R82xxRegisters.SyncedWrites`); two values written from
  0x04 do not (`R82xxRegisters.WriteBelowStart`). No caller makes either kind of write.
- `rtl_tcp` links a new buffer to one it has just freed exactly when `llbuf_num` is -2 and one
  buffer is queued (`RtlTcp.Queue.Append`); a run comes to that exactly when two buffers are
  produced without a hand-over between (`RtlTcp.MinusTwo`). The limit -1 bounds the queue like a
  positive one, and the limits below -2 drop nothing, like 0.
- A string descriptor of the EEPROM may start at byte 77. Clearing byte 78 then erases its type:
  of a configuration printed without error exactly such a descriptor is reported as invalid
  (`Eeprom.RoundTrip`), as after a manufacturer of 33 characters (`Eeprom.LongManufacturer`). Its
  string is still read as printed.

## Model

| member | source | states |
|---|---|---|
| BitReversal.BitRevInvolution | src/rtl_power.c:272-288 | reversing the bits of an index twice gives the index back, and reversals stay in range |
| BitReversal.ReversedIncrement | src/rtl_power.c:274-278 | when `l` is the largest power of two that `mr` has room for, `(mr & (l-1)) + l` is the reversal of the next index |
| BitReversal.ReorderedTwice | src/rtl_power.c:270-288 | the reordering is its own inverse, so it is a permutation |
| FixFft.NextReversed | src/rtl_power.c:274-278 | the halving loop terminates for every `m` and keeps `mr` the bit reversal of `m` |
| FixFft.Reorder | src/rtl_power.c:270-288 | the swap loop leaves exactly the bit-reversed order of the complex values, and nothing outside them changes |
| FixFft.TwiddleInRange | src/rtl_power.c:295-297 | both table indices of every butterfly of every stage lie inside the table of 3/4 `N_WAVE` entries |
| FixFft.Butterfly | src/rtl_power.c:300-312 | one butterfly replaces its two values by the half sum and half difference of the first and the turned second, and no other value |
| FixFft.ButterflyStages | src/rtl_power.c:289-316 | the three nested loops amount to one simultaneous butterfly stage per block length |
| FixFft.FixFft | src/rtl_power.c:262-318 | in place on 2^m values: -1 and no change when the table is too small, otherwise the reordered values after m stages |
| FftMeaning.DftIsHorner | src/rtl_power.c:262-318 | the sum of x[t]*w^(f*t) is a polynomial in w^f, the form in which the halves of the input recombine |
| FftMeaning.ButterflyHolds | src/rtl_power.c:294-312 | a butterfly of the transforms of two half sequences gives the two transform values of the whole sequence, scaled by 1/2 |
| FftMeaning.StagesHold | src/rtl_power.c:289-316 | after s stages each block of length 2^s holds the scaled transform of its bit-reversed subsequence |
| FftMeaning.FftIsDft | src/rtl_power.c:262-318 | for every length up to the table size and every table of powers of a root w with w^(N_WAVE/2) = -1, output f is the discrete Fourier sum at f divided by the length |
| FftMeaning.SmallestTable | src/rtl_power.c:238-252 | with the table of `N_WAVE` = 2 both results are half the first input; they are the transform if and only if the second input is zero |
| FftMeaning.QuarterTable | src/rtl_power.c:238-252 | the tables for which the result is the transform exist: the one of `N_WAVE` = 4 is one |
| FftMeaning.NoSmallestRootTable | src/rtl_power.c:238-252 | no table of `N_WAVE` = 2 is one, so the result for two values there is that of the row above and nothing more |
| FftRange.ButterflyRange | src/rtl_power.c:254-312 | inputs of modulus at most m and a halved twiddle give results of modulus at most m + 3, and every product, sum and difference on the way fits its C type |
| FftRange.FittingButterfly | src/rtl_power.c:302-311 | a butterfly in which everything fits computes the same in 16 bits as in unbounded integers |
| FftRange.StagesRange | src/rtl_power.c:289-316 | the bound grows by at most 3 per stage, and no operation of any butterfly of any stage wraps |
| FftRange.FftNeverWraps | src/rtl_power.c:254-318 | inputs of modulus at most m and k stages with m + 3k at most 32767: the 16-bit result is the unbounded one, of modulus at most m + 3k, and no operation of any butterfly wraps |
| FftError.ButterflyNear | src/rtl_power.c:254-312 | in one butterfly the roundings of twiddle, product and half add at most 3 to the distance from the exact one, and a table within d of the roots adds d/2 |
| FftError.StagesNear | src/rtl_power.c:289-316 | after s stages every value is within s * (3 + d/2) of that of the exact transform |
| FftError.FftNearDft | src/rtl_power.c:254-318 | with such inputs and a table within d of the roots, each output of k stages in 16 bits is within k * (3 + d/2) of the discrete Fourier sum divided by the length |
| FftError.RoundedTableIsClose | src/rtl_power.c:238-252 | a table that rounds 32767 times the powers of the root to the nearest integers, as `sine_table` does, is bounded and within 1.708 of the roots |
| FftError.SineTableNearDft | src/rtl_power.c:238-318 | so with the table of the program each output is within 3.854 per stage of the discrete Fourier sum divided by the length |
| FftError.QuarterTableNear | src/rtl_power.c:238-252 | such tables exist: that of `N_WAVE` = 4 is bounded and within 1 of the roots |
| FftInput.SmallInputNeverWraps | src/rtl_power.c:690-706 | sample pairs of modulus at most 127, a window of at most 256 and at most 21 stages: neither the window nor any butterfly wraps |
| FftInput.SafeExactly | src/rtl_power.c:690-706 | 127 is the largest such modulus: for every larger bound some table, window and input wrap |
| FftInput.SmallInputNearDft | src/rtl_power.c:690-706 | for such pairs and the table of the program each output is, within 3.854 per stage, that of the discrete Fourier transform of the exact products of samples and window |
| FftInput.CornersWrap | src/rtl_power.c:664-706 | an instance at the corners of the sample range, with mean zero and the window 256 of src/rtl_power.c:973: nothing wraps at the window, but output 1 of eight points is 39243 on unbounded integers and -26293 in 16 bits |
| FrameBarrier.NextKeepsInv | src/rtl_hpsdr.c:248-329 | every step of every thread, spurious wake-ups included, keeps the global invariant over locks, flags, payload and counts |
| FrameBarrier.FramesAreRounds | src/rtl_hpsdr.c:2272-2309 | in every interleaving frame k carries sequence number k modulo 2^32 and exactly packet k of every active receiver |
| FrameBarrier.NoStoreWhileSending | src/rtl_hpsdr.c:2300-2305 | while a frame is sent no receiver is storing into it and it does not change |
| FrameBarrier.SettingNeverOverlapsClearing | src/rtl_hpsdr.c:320-328 | although `send_flags` is set under one lock and cleared under another, no receiver is between reading and writing it when it is cleared, and what it read is still the value when it writes |
| FrameBarrier.NotDeadlocked | src/rtl_hpsdr.c:2275-2309 | in every reachable state in which no receiver waits for samples some thread can step |
| FrameBarrier.StepsUsePendingWork | src/rtl_hpsdr.c:266-328 | apart from new samples and spurious wake-ups every step lowers a measure, so no round can go on for ever |
| FrameBarrier.RoundCompletes | src/rtl_hpsdr.c:2272-2309 | once all receivers have taken up samples, any scheduler that runs unblocked threads sends the frame with the packets of that round |
| HpsdrFrame.TablesAgree | src/rtl_hpsdr.c:117-119 | for 1 to 7 slots the three tables agree: each bank holds exactly half a packet of groups and fits the frame |
| HpsdrFrame.AddressPlace | src/rtl_hpsdr.c:268-317 | (bank, group, slot, byte) to byte address is injective and inside the frame |
| HpsdrFrame.PlaceAddress | src/rtl_hpsdr.c:268-317 | the other direction: every slot byte of the frame is the address of its place |
| HpsdrFrame.Control.SetReceivers | src/rtl_hpsdr.c:2194-2251 | after any change of the receiver count the layout has that many slots, the mask is the active receivers, and the copy table marks exactly the slots to copy among those in use |
| HpsdrFrame.Control.LoadPacket | src/rtl_hpsdr.c:248-318 | the store loops put each sample of the packet at its place in the receiver's own slots and its copies and leave all other bytes |
| HpsdrFrame.LoadAllByte | src/rtl_hpsdr.c:248-318 | after the receivers of any order, a slot byte is that of the receiver the slot shows, or untouched if that receiver did not run |
| HpsdrFrame.LoadAllLeavesOthers | src/rtl_hpsdr.c:268-317 | header, microphone, padding and low-order bytes survive all receivers |
| HpsdrFrame.SlotsShow | src/rtl_hpsdr.c:248-318 | once all active receivers have run, decoding slot, sample and component yields that receiver's samples in order; copied slots yield those of the last real receiver |
| SentFrames.PacketAt | src/rtl_hpsdr.c:346-417 | value j of packet k is value 2 * samples * k + j of the filtered stream |
| SentFrames.SentSamples | src/rtl_hpsdr.c:248-417 | from stream to frame: in every interleaving, sample t of a slot of frame k decodes to sample k * samples + t of the filtered stream of the receiver that the slot shows |
| Downsample.FilterLoop | src/downsample.c:161-207 | the loop writes exactly the filter pair of every dsample-th position, from the output offset on, and moves the last coefficient-length pairs to the front |
| Downsample.FirOfUnit | src/downsample.c:184-193 | the response of the filter to a single sample is the coefficient it meets, in its own component and nowhere else |
| Downsample.FirIsLinear | src/downsample.c:184-193 | the filter is linear, so these responses determine it |
| Downsample.PairOfUnit | src/downsample.c:184-200 | each component of the pair put out shows its own samples, or the other's when I and Q are exchanged |
| Downsample.KeptAt | src/downsample.c:161-201 | output n is the filter pair of position (n+1)*dsample - 1, with I and Q exchanged in the first pass |
| Downsample.PassesGiveRate | include/rtl_hpsdr.h:85 | the two decimations together turn 192000 * `DOWNSAMPLE_192` samples a second into each of the four rates |
| Downsample.WrittenIsAdded | src/rtl_hpsdr.c:377-394 | at each of the four rates the filter writes exactly the number of samples that is added to `iqSamples_remaining` |
| Downsample.DealtAndLeft | src/rtl_hpsdr.c:403-408 | packets followed by the rest are the pending samples |
| Downsample.RunConserves | src/rtl_hpsdr.c:346-417 | over any run of blocks the packets and the rest are the concatenation of all filtered blocks: nothing lost, repeated or reordered |
| Downsample.Receiver.DownLoops | src/downsample.c:211-214 | both passes append the new samples behind the pending ones without overrunning `iqSamples` |
| Downsample.Receiver.TakeBlock | src/rtl_hpsdr.c:372-417 | one turn of the sending thread hands out the packets of pending plus new samples and keeps the rest |
| Downsample.Receiver.HandOut | src/rtl_hpsdr.c:403-408 | packets are dealt while more than one is pending; at least one sample stays |
| Downsample.Receiver.Compact | src/rtl_hpsdr.c:411-417 | the rest moves to the front unchanged, by a copy whose regions do not overlap |
| AsyncRead.Device.Callback | src/librtlsdr.c:1770-1796 | a callback resubmits only its own completed transfer, never clears a loss, and only ever turns running into cancelling |
| AsyncRead.Device.HandleEvents | src/librtlsdr.c:1978-1985 | the events act on the engine one after the other as specified; whatever ends, cancels or is resubmitted, no transfer starts that was not in flight |
| AsyncRead.Device.CancelPass | src/librtlsdr.c:1987-2014 | the pass goes on cancelling if and only if one of its cancels succeeded; when none did, no transfer is in flight; with nothing in flight and no transfer that can be cancelled, none does |
| AsyncRead.NoCancelSucceeds | src/librtlsdr.c:2001-2011 | with no transfer in flight, and cancels that fail on those not cancelled yet, the pass changes nothing and has no success |
| AsyncRead.Device.ReadAsync | src/librtlsdr.c:1921-2031 | every return without device loss or fatal event error frees the buffers with no transfer in flight and leaves the device inactive, also after a submit failed midway or callbacks resubmitted while cancelling; a second call is refused |
| AsyncRead.GoesOnOtherwise | src/librtlsdr.c:1977-2022 | the turns after which the event loop goes on: an interruption, a handled turn that is not cancelling, and one in which a cancel succeeded without loss of the device |
| AsyncRead.ReturnsWhenCancelled | src/librtlsdr.c:1977-2031 | a script that comes to a handled turn of a cancelling stream with nothing left to cancel returns there, inactive and with no transfer in flight |
| AsyncRead.SecondSubmitFails | src/librtlsdr.c:1949-2031 | an instance: when the second of two transfers is not submitted, the call returns in its second turn, with -1, the result of the last cancel |
| AsyncRead.Device.CancelAsync | src/librtlsdr.c:2033-2053 | succeeds exactly on a running stream, and then makes it cancelling |
| Tuning.Device.SetCenterFreq | src/librtlsdr.c:893-933 | for any hardware results: state, return code and number of nested tunes are those of the recursive specification, at most three tunes; on success in automatic mode the sampling mode is 2 exactly for an R820T with recorded frequency below 24 MHz; the recorded frequency is the new one or 0 |
| Tuning.TuneReturns | src/librtlsdr.c:893-933 | without a change of the mode a tune returns 0 exactly when its driver call does, without a driver call never; with a change, exactly when the switch succeeds |
| Tuning.Device.ApplyDirectSampling | src/librtlsdr.c:1209-1270 | the same for switching the sampling mode, which retunes to the recorded frequency; it returns 0 if and only if the tuner call, every register write and the nested tune succeed |
| Tuning.SampleReturnsZero | src/librtlsdr.c:1209-1270 | that condition by the numbers of the operations: no failed one is lost in the combined code |
| Tuning.CombinedIsZero | src/librtlsdr.c:1223-1261 | codes combined with the bitwise or are 0 if and only if all of them are |
| Tuning.Device.SetDirectSampling | src/librtlsdr.c:1202-1207 | the mode asked for is remembered and applied, with the code of the switch; on success it is in force, or the automatic one for 0 |
| Tuning.ThreeTunes | src/librtlsdr.c:893-933 | an instance: an R820T in mode 2 asked for 100 MHz, with its first attempt failing, needs all three tunes and returns 0 with a recorded frequency of 0 |
| Adsb.BitIsRead | src/rtl_adsb.c:187-226 | at every quality a pulse pair above the level after another pulse pair reads as its bit |
| Adsb.BadSampleExactly | src/rtl_adsb.c:187-226 | for each quality the pairs that are bad samples, by the higher and lower sample of the pair and of the one before; all others read as their own comparison |
| Adsb.ManchesterEnds | src/rtl_adsb.c:264-309 | a loop that ends has one turn less left after each turn |
| Adsb.MovesOn | src/rtl_adsb.c:264-309 | from a state that is not stuck at most three turns move the scan on, for all parameters |
| Adsb.StuckForever | src/rtl_adsb.c:264-309 | a stuck state stays stuck for every number of turns |
| Adsb.EndsUnlessStuck | src/rtl_adsb.c:264-309 | for every buffer and all parameters the loop ends if and only if no turn leaves it stuck |
| Adsb.EndsOnEveryBuffer | src/rtl_adsb.c:264-309 | the parameters for which it ends on every buffer are exactly an allowed error, or quality 0 or 5 |
| Adsb.CleanTailEnds | src/rtl_adsb.c:264-309 | a buffer with no 255 among its last 15 samples is enough, for all parameters |
| Adsb.Magnitude | src/rtl_adsb.c:156-185 | the magnitude is the sum of the squares of both bytes less 127, and never 255 |
| Adsb.MagnitudesEnd | src/rtl_adsb.c:175-309 | on the magnitudes of any bytes of a dongle the loop ends for all parameters |
| Adsb.ManchesterLoops | src/rtl_adsb.c:264-309 | for any other parameters the buffer [255, 255] is one on which it does not end |
| Adsb.ManchesterInPlace | src/rtl_adsb.c:264-309 | on every buffer on which it ends, the loops over the buffer compute the recursive scan |
| Adsb.Preamble | src/rtl_adsb.c:238-262 | the loop with its early exit decides the preamble test |
| Adsb.PreambleMeans | src/rtl_adsb.c:238-262 | the test holds if and only if samples 0, 2, 7 and 9 are above their neighbouring gaps, sample by sample: 0 above 1, 2 above 1 and 3 to 6, 7 above 6 and 8, 9 above 8 and 10 to 15 |
| Adsb.PulsesMakePreamble | src/rtl_adsb.c:238-262 | so it holds of pulses at 0, 2, 7 and 9 above a level and the other twelve samples not above it |
| Adsb.FrameAfterManchester | src/rtl_adsb.c:264-309 | whenever decoding ends: behind the next preamble that a turn finds, pairs whose comparisons are the bits are decoded to them and packed behind the preamble with no bit value before them, as long as no more of them are bad samples than are allowed; what stood before the preamble stays |
| Adsb.AheadIsSent | src/rtl_adsb.c:264-309 | after any number of turns the samples ahead of the scan are as sent |
| Adsb.CarriedFrameArrives | src/rtl_adsb.c:187-262 | a frame sent above a level after a constant background, its preamble pulses at samples 0, 2, 7 and 9, is of this kind, at every quality and without a bad sample |
| Adsb.Messages | src/rtl_adsb.c:311-345 | the collecting loops show exactly the frames of the recursive scan |
| Adsb.BitWeights | src/rtl_adsb.c:322-325 | bits are collected from the most significant one on |
| Adsb.RunIsShown | src/rtl_adsb.c:311-345 | a run of bits from the start of a well-formed frame is shown if and only if at most the last bit is missing, then as 0 |
| Adsb.ZeroByteIsSkipped | src/rtl_adsb.c:327-329 | eight zeros are passed over |
| Adsb.EveryFrameIsShown | src/rtl_adsb.c:264-345 | whenever decoding ends, every well-formed long or short frame that arrives so in some turn is shown, byte for byte and with its length |
| Adsb.FrameIsShown | src/rtl_adsb.c:264-345 | one that arrives in the first turn, with no bit value before it, is the first shown |
| Adsb.ReceivedFrameIsShown | src/rtl_adsb.c:175-345 | on the samples of a dongle one sent above a level after a constant background always is, at every quality and for every number of allowed errors |
| Getopt.ExchangeSegments | src/getopt/getopt.c:302-380 | the swapping loop terminates and rotates its two segments exactly, leaving all else |
| Getopt.Scanner.Advance | src/getopt/getopt.c:547-620 | moving to the next element keeps the skipped non-options between the options, in order; at the end argv is the stable partition |
| Getopt.Scanner.DecodeOption | src/getopt/getopt.c:776-971 | one option character consumes exactly what the reference parser consumes for it |
| Getopt.Scanner.Next | src/getopt/getopt.c:510-972 | every call keeps the scanning invariant, and -1 leaves the finished partition |
| Getopt.GetoptAll | src/getopt/getopt.c:510-972 | repeated calls terminate; argv is then the program name, options with their arguments and `--`, then non-options; `optind` is the first non-option; the results are those of the reference parser |
| Getopt.OptionElement | src/getopt/getopt.c:776-971 | by the text of the option string: an element of one option character takes the next element as its argument if and only if exactly one colon follows the first occurrence of the character; if there is none left it gives `?`, or `:` when the option string starts with a colon |
| Getopt.OptionWithText | src/getopt/getopt.c:925-971 | with text behind it, the text is its argument if and only if at least one colon follows |
| Getopt.UnknownOption | src/getopt/getopt.c:784-800 | a colon, or a character that is not in the option string, gives `?` and the rest goes on |
| Getopt.OperandElement | src/getopt/getopt.c:540-604 | empty elements, those not starting with `-`, and `-` itself are operands; `--` ends the options |
| Getopt.FlagsInOneElement | src/getopt/getopt.c:776-971 | characters without an argument in one element are returned one by one |
| Getopt.ParseIsStablePartition | src/getopt/getopt.c:547-604 | the reference parser's options and operands are the marked and the unmarked arguments, each in original order |
| Getopt.WantsNextExactly | src/getopt/getopt.c:945-971 | an element takes the next one with it if and only if its last character needs an argument and none before it takes one |
| Getopt.SelectionsArePermutation | src/getopt/getopt.c:302-380 | marked followed by unmarked arguments are a permutation of all |
| R82xxRegisters.CopyInBounds | src/tuner_r82xx.c:239-254 | the length given to `memcpy` is not negative, and the copy stays in both arrays, if and only if the write is empty or starts at 0x23 or below; at 0x24 it is -1 |
| R82xxRegisters.WriteKeepsSync | src/tuner_r82xx.c:239-254 | such a write from 0x05 up keeps the copies equal to the chip, wherever it ends |
| R82xxRegisters.SyncedWrites | src/tuner_r82xx.c:239-254 | the writes that always keep them equal are exactly those from 0x05 up and those that end below it |
| R82xxRegisters.WriteBelowStart | src/tuner_r82xx.c:242-247 | an instance: two values from 0x04 need not, the copy is not shifted by what it skips |
| R82xxRegisters.WrittenInChunks | src/tuner_r82xx.c:264-289 | two consecutive chunk writes are one long write |
| R82xxRegisters.Tuner.Write | src/tuner_r82xx.c:256-291 | for the writes whose copy stays in bounds: all chunks together are one auto-increment write; after a failure the chip holds a proper prefix of it |
| R82xxRegisters.Tuner.WriteRegMask | src/tuner_r82xx.c:308-319 | exactly the named register changes, to the masked value, in copy and chip; when the message fails the chip keeps all registers; registers without a copy are refused |
| R82xxRegisters.MaskedBits | src/tuner_r82xx.c:316 | bits outside the mask are kept, bits inside it taken from the value |
| R82xxRegisters.RunsKeepSync | src/tuner_r82xx.c:239-319 | over any run of initializations, masked writes, and writes from 0x05 up whose copy stays in bounds, the copies equal the chip, whatever they held before an initialization |
| R82xxRegisters.Perform | src/tuner_r82xx.c:1330-1341 | the methods of the driver, with the table copied again at src/tuner_r82xx.c:803-804, are the operations of those runs |
| R82xxPll.FindDivider | src/tuner_r82xx.c:468-480 | finds the divider that puts the VCO in range and its number whenever one exists |
| R82xxPll.DividerUnique | src/tuner_r82xx.c:468-480 | there is at most one such power of two |
| R82xxPll.TunableExactly | src/tuner_r82xx.c:468-480 | there is one exactly for 27657 to 1769999 kHz |
| R82xxPll.NearestKhz | src/tuner_r82xx.c:447-449 | frequencies are rounded to the nearest kHz |
| R82xxPll.AboveTheLimit | src/tuner_r82xx.c:504-507 | the integer part is above the limit of the chip exactly for a VCO of 256 times the crystal or more on an R828D, of 128 times on the others |
| R82xxPll.SigmaDelta | src/tuner_r82xx.c:526-535 | for every reference the loop computes the recursive search and ends; unless it divides by zero, `sdm` fits 16 bits, and a fraction of at most one reference step is met within 15 kHz plus 1/16384 of the reference |
| R82xxPll.NeverDividesByZero | src/tuner_r82xx.c:526-535 | `n_sdm` wraps to 0 for no fraction if and only if the reference is below 32768 kHz |
| R82xxPll.FastCrystal | src/tuner_r82xx.c:500-535 | an instance: 28672032 Hz on a 32.768 MHz crystal, VCO in range and integer part 28, leaves a fraction of 2 kHz and divides by zero |
| R82xxPll.NarrowIsExact | src/tuner_r82xx.c:500-507 | the 8-bit integer part is the true one if and only if 512 times the crystal exceeds the VCO frequency; then, or when the low 8 bits are above the limit too, and only then, exactly what is above the limit of the chip is refused |
| R82xxPll.FittingInteger | src/tuner_r82xx.c:500-502 | with the VCO in range, one that fits is computed without wrapping and leaves a fraction of at most one reference step; it is at least 27 for a crystal below 32768 kHz |
| R82xxPll.RightExactlyWhenFitting | src/tuner_r82xx.c:500-541 | with the VCO in range and a crystal below 2^31 Hz, register 0x14 decodes to the true integer part if and only if that is at least 13 and fits 8 bits, and the fraction is met within the tolerance if and only if it fits |
| R82xxPll.SlowCrystal | src/tuner_r82xx.c:500-512 | an instance: 48 MHz on a 3 MHz crystal has the integer part 512, is computed with 0, and is not refused |
| R82xxPll.IntegerRegister | src/tuner_r82xx.c:509-512 | register 0x14 decodes back to the 8-bit integer part if and only if it is at least 13 |
| R82xxPll.SetPll | src/tuner_r82xx.c:447-541 | the whole synthesis against the true integer part: right divider; right 8-bit integer part and fraction exactly when it fits 8 bits, right register when it is also at least 13; refusal right exactly then or when the low 8 bits are above the limit; a division by zero exactly as the search says, and never for a crystal below 32768 kHz |
| R82xxPll.TwiceTheCrystal | src/tuner_r82xx.c:500-502 | twice the crystal is right in 32 bits exactly below 2^31 Hz, and 0 exactly at 2^31 |
| E4kPll.ComputePllParams | src/tuner_e4k.c:483-533 | for every valid crystal `z` is the low byte of the quotient, the quotient itself if and only if target times multiplier is below 256 times the crystal; the frequency lies at most (fosc/65536 + 1)/r + 1 Hz below the target if and only if that holds and the target is at least one step of the fraction; below one step -EINVAL comes back |
| E4kPll.Synthesis | src/tuner_e4k.c:418-449 | the same if and only if for every target and the quotient, remainder and fraction of its division |
| E4kPll.LargeQuotient | src/tuner_e4k.c:418-449 | a quotient above 255, of which include/tuner_e4k.h:187 keeps 8 bits, never meets the bound |
| E4kPll.HighTarget | src/tuner_e4k.c:418-449 | an instance: 1.1 GHz on a 16 MHz crystal has the quotient 275, is synthesized with 19, and comes out as 76 MHz |
| E4kPll.TinyTarget | src/tuner_e4k.c:442-449 | below one step both parts are 0 and -EINVAL comes back as the frequency |
| E4kPll.OneHertz | src/tuner_e4k.c:442-449 | an instance: 1 Hz on a 28.8 MHz crystal comes back as a frequency above 4 GHz, outside the error bound |
| RtlFm.LowPassSplits | src/rtl_fm.c:305-325 | decimating a stream of pairs gives the same output and state wherever it is cut |
| RtlFm.PairsAreSummed | src/rtl_fm.c:305-325 | output pair k is, in 16 bits, the sum of I and of Q over pairs k*downsample - index up to (k+1)*downsample - index, the first from 0 on with the carried sums; floor((index + n)/downsample) pairs come out, and the rest is carried on |
| RtlFm.LowPassRealSplits | src/rtl_fm.c:343-363 | the same for the resampler, at any cut, for rates with which it divides by no zero (next row) |
| RtlFm.GainIsZero | src/rtl_fm.c:352-357 | the divisor `fast/slow` is 0 if and only if the slow rate is above the fast one |
| RtlFm.GainIsFloor | src/rtl_fm.c:357 | otherwise it is the floor of their quotient |
| RtlFm.TruncatedMeans | src/rtl_fm.c:357 | sums are divided by it toward zero |
| RtlFm.InputsAreGrouped | src/rtl_fm.c:343-363 | every input lands in exactly one output sum, in order, the first sum including what was carried in |
| RtlFm.OutputCount | src/rtl_fm.c:343-363 | exactly floor((prev + n*slow)/fast) samples come out |
| RtlFm.FoldedIsDirect | src/rtl_fm.c:396-408 | folding equals the nine-tap sum for every history if and only if the table is palindromic |
| RtlFm.FilterSplits | src/rtl_fm.c:396-420 | filtering a stream gives the same output and history wherever it is cut |
| RtlFm.HistoryIsRecent | src/rtl_fm.c:410-418 | the history is always the last nine samples |
| RtlFm.OutputUsesRecent | src/rtl_fm.c:396-408 | output n is the filter sum over the nine samples before input n, divided by 2^15 |
| RtlFm.Demodulator.LowPassInPlace | src/rtl_fm.c:305-325 | the loop that overwrites its own input computes the stream function |
| RtlFm.Demodulator.LowPassRealInPlace | src/rtl_fm.c:343-363 | the same for the resampler, for every positive slow rate: it divides by zero on its first sample if that is above the fast one, and never otherwise |
| RtlFm.GenericFir | src/rtl_fm.c:396-420 | every other sample is replaced by the filtered one, the others and the rest of the buffer stay |
| RtlTcp.Queue.Append | src/rtl_tcp.c:155-197 | for every limit: appending to the linked list adds at its end and drops its head exactly when the limit test matches; the node linked to is the one just freed if and only if the limit is -2 and one buffer is queued |
| RtlTcp.Queue.TakeAll | src/rtl_tcp.c:226-228 | the worker takes the whole list and leaves it empty |
| RtlTcp.SendBuffer | src/rtl_tcp.c:230-249 | the attempts on one buffer end exactly at a failure or an exit, or with all bytes sent; every attempt that the socket accepts sends at least one byte |
| RtlTcp.SendAll | src/rtl_tcp.c:230-255 | what the socket takes in partial sends is a prefix of the bytes of the taken list in order, and all of them unless the thread exits; it exits only at a failure or when told to, and without either it sends until the attempts run out |
| RtlTcp.StepKeepsInv | src/rtl_tcp.c:155-197 | each operation keeps the invariant; a buffer is dropped only from a full queue, and then it is the oldest queued one |
| RtlTcp.RunsKeepInv | src/rtl_tcp.c:155-228 | in every run with a positive limit, or -1, the queue holds at most limit + 3 buffers although the test is an equality, and what was handed over plus what is queued is what was produced without the drops, in order |
| RtlTcp.BoundIsReached | src/rtl_tcp.c:171-182 | limit + 3 is reached |
| RtlTcp.UnlimitedDropsNothing | src/rtl_tcp.c:177 | with limit 0, or one below -2, nothing is ever dropped |
| RtlTcp.MinusTwo | src/rtl_tcp.c:177-186 | a run with limit -2 links to a freed node if and only if it produces twice without a hand-over between |
| Eeprom.SetStringDescriptor | src/rtl_eeprom.c:109-130 | the loop prints a descriptor and the next position, or the part that fits and -1; after an error it prints nothing |
| Eeprom.GenerateInPlace | src/rtl_eeprom.c:152-175 | header, three descriptors and the cleared byte 78, in place |
| Eeprom.GetStringDescriptor | src/rtl_eeprom.c:92-107 | the string and the next position by the length byte, and a report exactly when the type byte is not 3 |
| Eeprom.CharactersByLength | src/rtl_eeprom.c:92-107 | the characters are every second byte inside the length, whether it is even or not, and the next descriptor follows at an even distance |
| Eeprom.ParseInPlace | src/rtl_eeprom.c:132-150 | the configuration read from header and descriptors, and which of the four are reported as invalid |
| Eeprom.RoundTrip | src/rtl_eeprom.c:92-175 | every configuration that is generated without error is parsed back, its flags as 0 or 1; a descriptor of it is reported as invalid if and only if it starts at byte 77 |
| Eeprom.GeneratedBytes | src/rtl_eeprom.c:109-175 | every byte of header and descriptors: the flags in bytes 6 and 7, length and type of each descriptor, and a zero high byte to each character |
| Eeprom.LongManufacturer | src/rtl_eeprom.c:92-175 | an instance: after 33 characters of manufacturer the product is reported, and still read |
| Eeprom.GenerateFails | src/rtl_eeprom.c:109-175 | generation fails exactly when a string runs past byte 77, given by the string lengths, and an error of one string sticks through the later ones |
| Eeprom.WritesBelow | src/rtl_eeprom.c:152-175 | whether it fails or not, no byte from 83 on is written, so all of it is in the 128 bytes sent to the device |

## Left out

- libusb, sockets, pthreads, files, signals and printing appear only as steps of an environment.
- Floating point is real arithmetic: rounding is not modelled, nor the conversion of float samples to 16 bits in `load_packet`, whose samples are taken as 16-bit values.
- The sine table is assumed: exact powers of a root for the meaning of the FFT, entries of bounded modulus for its range, and the powers times 32767, rounded to the nearest integers, for its error. The `double` arithmetic of `sine_table` before that rounding is not modelled.
- FftInput.SafeExactly: starts from the pairs at the window; the boxcar, the decimation, the droop filter and the removal of the mean before it are not modelled, nor the window functions, whose coefficients are taken to be at most 256 in absolute value.
- The SSE and NEON loop of `down_loop`, playback of IQ files, and the split of a stream into blocks for `down_loop` and `fifth_order`, which they do not promise.
- Changing the receiver count and starting or stopping while frames are in flight: these force `send_flags`, and the barrier is proved for a fixed mask.
- FrameBarrier.RoundCompletes: covers schedules without spurious wake-ups, which could otherwise go on for ever.
- AsyncRead.Device.ReadAsync: says nothing about transfers in flight after the loss of the device or a fatal error of event handling, when the program frees its buffers at once; allocation failures, zero-copy buffers and the fallback to them are not modelled.
- FixFft.Reorder: a mask with `l-1` for a power of two `l` is written as the remainder modulo `l`.
- Getopt: long options, `-W` with `W;`, the orders chosen by `+`, `-` or POSIXLY_CORRECT, the printed messages, and calls after -1.
- R82xxPll.SetPll: the fine tuning of `div_num` by the read-back VCO setting, the register writes around the arithmetic, the polling for lock, and crystals of 2^31 Hz and above, twice which wraps (R82xxPll.TwiceTheCrystal).
- E4kPll.ComputePllParams: writing the parameters to the tuner.
- R82xxRegisters.Tuner.Write: message lengths above 31 bytes, writes past register 255, and what the program does after a copy with a negative length, which is undefined.
- Tuning.Device.SetCenterFreq: the contents of the register writes; each hardware access is an arbitrary result.
- RtlFm.LowPassRealSplits: nothing about a slow rate above the fast one beyond the division by zero; there is no resampled stream.
- RtlFm: 32-bit overflow of the running sums and of the filter sum; values stored in 16-bit buffers do wrap.
- RtlTcp.Queue.Append: `global_numq` and its messages, and what the program does after linking to a freed node, which is undefined.
- Eeprom.ParseInPlace: data whose length bytes would lead the parser outside the 256 bytes, on which the program reads beyond its buffer.
- Adsb.FrameIsShown: the filters and the printing of `display`, and frames cut by the end of a buffer.
- Adsb.Magnitude: that `magnitute` writes the magnitudes over the bytes they come from.
- The gain, multiplexer and filter tables of the tuners, the FC0012, FC0013 and FC2580 drivers, `rtl_sdr`, `rtl_test`, `rtl_biast` and the suffix parsers: table-driven writes or thin wrappers.
- The ring buffer of the local sound output, whose callers do not check for free space.
