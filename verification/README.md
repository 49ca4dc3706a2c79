# Verification of the G.722 codec and the stream plumbing around it

The project models five parts of the soft phone and proves what each is for, over every input and every run.

* **The G.722 sub-band ADPCM codec** (`g722/g722_encode.c`, `g722/g722_decode.c`). Encoder and decoder are two
  separate state machines that never exchange their state. Each keeps an adaptive predictor and a step size for
  each of two sub-bands, a QMF history, and the bits of an unfinished code. The codec works because the two
  machines stay in step. The main results: lockstep at every rate, in every mode and for every cut into calls; a
  bound on the error of the decoded sample, for 8 kHz and for 16 kHz sound; the ranges that make the 32-bit
  arithmetic safe; and that the arithmetic is that of ITU-T G.722.
* **The Ethernet driver** (`softphone/src/ethernetif.c`, with the descriptor code of the HAL). Frames are
  scattered over a ring of DMA buffers and gathered from one; both loops are proved to be plain concatenation.
* **The CRC-32** behind the MAC address (`softphone/src/ethernetif_mac.c`), proved to be polynomial division.
* **The DTMF generator** (`baresip/src/dtmf.c`), proved to be a queue that loses and repeats nothing.
* **RTP loss accounting** (`baresip/src/stream.c`), proved exact across the 16-bit wrap, with its limits.

## How the model is built

Where the C code works in place, the model is a class or an array method with the same fields, loops and branches,
and each such method is proved equal to a function on values. The theorems are about those functions.

* `FixedPoint`, `Tables`, `Predictor`, `StepSize`, `Quantizer`, `Codec`: the arithmetic of one sample on values.
* `SubBand`, `G722Encoder`, `G722Decoder`: the context records and the two loops, in place. Fields, array cells and
  the variables that hold signal values, codes and bits have their C width as a subset type, so that no 32-bit value
  overflows is part of what is proved. Positions in the sample and byte buffers, and the counters of loops with
  constant bounds, are plain integers.
* `Lockstep`, `DelayLines`, `ErrorBound`, `Filterbank`, `Reconstruction`, `BitStream`, `Session`, `Wideband`: the
  theorems, up to whole runs of calls.
  `G722RoundTrip` puts an encoder object and a decoder object at the two ends of a line.
* `RingMemory`, `EthernetTx`, `EthernetRx`; `Crc32`; `Dtmf`; `RtpSequence`.

Conventions. The two source files of the codec hold the same predictor, the same step-size code and the same tables
twice; they are modelled once and used by both classes. (The two texts of the predictor differ only in the order in
which one three-term sum is built.) The scratch cells of the band record (`ap`, `bp`, `sg` and index 0 of the delay
lines) are fields of the class but not of its abstract value, because every call overwrites them before reading
them. The `_new` and `_init` functions of a context do the same to the record, so each pair is one constructor.
`>>` on a signed value is floor division, `<<` is multiplication, `|` and `^` are defined digit by digit, a cast to
`int16_t` wraps around. The constants are those of the source.

## What the source does not do

Some expected properties are false of the code. Each has its exact condition.

* **Accuracy.** The samples of a quantizer cell are all reconstructed within the width of the bounded cells their
  code stands for if and only if the search index of the cell is not 30, the last, open one: for every step size up
  to 16384 (`Quantizer.AccurateIff`), from every legal state (`ErrorBound.LowBandAccurateIff`), and after every
  narrowband signal (`ErrorBound.NarrowbandAccurateIff`), at every rate. At 56 and 48 kbit/s the code of cell 30
  also stands for cell 29, or for cells 27 to 29; those stay accurate. `ErrorBound.OverloadExample` is one sample
  that is not. The high band behaves the same way (`ErrorBound.HighBandAccurateIff`).
* **Wide bursts.** The CRC sees every error inside 32 consecutive bits. Inside 33 it misses exactly one, the
  generator (`Crc32.WideBurstMissedIff`); `Crc32.FiveBytesMissed` shows it in bytes.
* **Durations.** `Dtmf.DurationExactIff`: durations are kept in 16 bits, so at high sample rates a long tone is cut
  short (`Dtmf.LongToneCut`). The only caller in the repository, `baresip/src/audio.c:1484`, asks for the defaults,
  which fit at every rate below 1638400 (`Dtmf.DefaultExactIff`).
* **Underruns.** When the jitter buffer has no frame, the handler counts a packet with sequence number 0. Over any
  orderly run that upsets the accounting if and only if it happens while the last number is above 100
  (`RtpSequence.StreamExactIff`); it can invent a loss of up to 2998 packets (`RtpSequence.NextAfterUnderrun`).

## Model

| member | source | states |
|---|---|---|
| FixedPoint.Saturate | g722/g722_encode.c:48-59 | narrowing first and clipping only on a change is the nearest 16-bit value, for every 32-bit input |
| FixedPoint.ToInt16 | g722/g722_decode.c:382-410 | the `int16_t` casts of the output: congruent modulo 65536, and the identity on values that fit |
| FixedPoint.BitOrDisjoint | g722/g722_encode.c:397-404 | OR-ing a shifted value into clear bits, in the code word and in the bit buffer, is addition |
| Predictor.Block4Stable | g722/g722_encode.c:62-148 | one predictor step keeps every field in 16 bits, a2 within 12288 of zero and a1 within 15360 - a2 of zero (section 3.6 of ITU-T G.722), for every 16-bit difference |
| Predictor.LeakAlreadyBounds | g722/g722_encode.c:92-114 | the saturations of UPPOL1 and UPZERO never fire on a reachable state |
| Predictor.SecondPoleFollowsStandard | g722/g722_encode.c:76-90 | the fixed-point second pole update is the rational formula of section 3.6 of ITU-T G.722 (leak, sign product and limited first coefficient) rounded down by less than two units in the last place |
| Predictor.SecondPoleRoundsTwice | g722/g722_encode.c:76-90 | one unit would not do: a stable state where the update is 255/128 units off |
| Predictor.FirstPoleFollowsStandard | g722/g722_encode.c:92-103 | the same for the first pole coefficient with its stability limit, off by less than one unit |
| Predictor.ZerosFollowStandard | g722/g722_encode.c:105-114 | the same for every zero coefficient, off by less than one unit, with no push on a zero difference |
| Predictor.PolesFollowStandard | g722/g722_encode.c:130-135 | the pole-section prediction is each coefficient on its own reconstructed sample, limited, and rounded down by less than two units |
| Predictor.ZeroSumIsDot | g722/g722_encode.c:137-144 | the zero-section sum is the inner product of coefficients and past differences, less than one unit lost for each tap |
| SubBand.Band.constructor | g722/g722_encode.c:176-194 | a zeroed band with its initial step size is a stable state |
| SubBand.Band.Block4 | g722/g722_encode.c:62-148 | the in-place predictor equals the step on values and keeps the stability invariant; no 32-bit intermediate overflows |
| SubBand.Band.Adapt | g722/g722_encode.c:69-114 | RECONS to UPZERO compute the new values into the scratch cells and leave the state alone |
| SubBand.Band.Uppol2 | g722/g722_encode.c:76-90 | second pole coefficient, from the stable state |
| SubBand.Band.Uppol1 | g722/g722_encode.c:92-103 | first pole coefficient, limited by the new second one, which it leaves alone |
| SubBand.Band.Upzero | g722/g722_encode.c:105-114 | all six zero coefficients |
| SubBand.Band.Delaya | g722/g722_encode.c:116-128 | the downward loops move every old value up by one place, none twice |
| SubBand.Band.Predict | g722/g722_encode.c:130-147 | the prediction from the moved delay lines |
| SubBand.Band.Filtep | g722/g722_encode.c:130-135 | pole-section prediction; both products fit 32 bits |
| SubBand.Band.Filtez | g722/g722_encode.c:137-144 | the accumulating loop is the zero-section sum, and no partial sum leaves 32 bits |
| SubBand.Band.UpdateLogStep | g722/g722_encode.c:344-351 | leaky log step, limited to the range of the band |
| StepSize.LeakyUpdate | g722/g722_encode.c:344-351 | the log step loses 1/128 and gains the increment, within the limits, rounded down by less than one unit |
| StepSize.LeakContracts | g722/g722_encode.c:344-351 | the leak takes 1/128 off the distance of two log steps, up to rounding, and never moves one past the other |
| StepSize.Converges | g722/g722_encode.c:344-351 | after n increments the distance, up to 127 units, has shrunk to (127/128)^n of what it was |
| SubBand.Band.UpdateStep | g722/g722_encode.c:353-357 | the step size is the table function of the log step in both shift directions |
| StepSize.ScaleMonotone | g722/g722_encode.c:353-357 | a larger log step never gives a smaller step size, also across the octave boundaries of the table (section 3.5 of ITU-T G.722) |
| StepSize.OctaveClimb | g722/g722_encode.c:353-356 | table entries keep their order over any number of octaves |
| StepSize.ScaleDoubles | g722/g722_encode.c:353-357 | one octave more doubles the step size, up to the bits the shift drops: the table is an antilogarithm |
| StepSize.IlbGeometric | g722/g722_encode.c:236-243 | the table is one octave of a geometric series: each entry is the one before times the 32nd root of two, to within 1.07 units, and it closes at twice the first |
| StepSize.LowStepRange | g722/g722_encode.c:344-357 | the low-band step size stays in [32, 16384] |
| StepSize.HighStepRange | g722/g722_encode.c:381-394 | the high-band step size stays in [8, 16384] |
| Quantizer.SearchIndexCell | g722/g722_encode.c:328-336 | the search ends in cell j if and only if the magnitude lies in cell j; the cells are disjoint and cover everything |
| Quantizer.LowCode | g722/g722_encode.c:325-337 | the 6-bit code is always in 4..63, so the index that drives the adaptation is never 0 |
| Quantizer.TwoDifferences | g722/g722_encode.c:328-329 | the search puts d above zero and -(d + 1) below it into the same cell |
| Quantizer.IncrementGrows | g722/g722_encode.c:339-347 | the increment of the log step is the same on both sides of zero, never falls as the cell lies farther out, and is negative exactly in the six inner cells |
| Quantizer.HighIncrements | g722/g722_encode.c:382-385 | in the high band the inner cells shrink the step and the outer ones let it grow, the same on both sides |
| Quantizer.UnsentCodes | g722/g722_decode.c:212-255 | codes no encoder sends are taken for the smallest negative difference of their rate and for its increment |
| Quantizer.CellsOfTruncatedCode | g722/g722_encode.c:361-397 | which quantizer cells share a code once it is cut to 7 or 6 bits: exactly the stated range on the same side, and the two sides only around zero at 6 bits |
| Quantizer.TablesAgree | g722/g722_decode.c:219-255 | for every search index below the overload cell, the entry of its code in each of the three inverse tables lies inside the union of bounded cells the code stands for |
| Quantizer.ReconstructionError | g722/g722_decode.c:318-321 | for every step size and rate, a difference outside the overload cell is reconstructed within the width of the bounded cells of its code |
| Quantizer.AccurateIff | g722/g722_decode.c:318-321 | every 16-bit difference of a cell is reconstructed that accurately if and only if it is not the overload cell |
| Quantizer.OverloadSide | g722/g722_decode.c:219-255 | in the overload cell the reconstructed difference lies on the right side, at or beyond the last decision level at 64 and 56 kbit/s and the last but one at 48 kbit/s; below 64 kbit/s exactly there, up to rounding |
| Quantizer.RequantizedSign | g722/g722_decode.c:318-321 | quantizing and reconstructing never changes the sign of a difference |
| Quantizer.RequantizedMonotone | g722/g722_decode.c:318-321 | quantizing and reconstructing never swaps two differences, at any rate |
| Codec.ModeOf | g722/g722_encode.c:176-190 | 6 and 7 bits exactly for 48000 and 56000, 8 for anything else; packing exactly when asked for at those two rates; 8 kHz exactly when asked for; never the ITU test mode |
| Codec.HighCode | g722/g722_encode.c:371-375 | the two bits of the high-band code are the sign of the difference and whether it lies in an inner cell |
| Codec.CodeParts | g722/g722_decode.c:295-317 | the decoder takes a code apart into exactly the parts the encoder put in, at every rate, and the code fits its width |
| Lockstep.AdaptLowOk | g722/g722_encode.c:339-359 | low-band adaptation keeps range, stability, and the step size a function of the log step, for every index |
| Lockstep.AdaptHighOk | g722/g722_encode.c:377-396 | the same for the high band |
| Lockstep.EncoderInvariant | g722/g722_encode.c:325-397 | every state of every encoder run is in range and stable |
| Lockstep.DecoderInvariant | g722/g722_decode.c:297-380 | every state of every decoder run is, also on codes that no encoder sends |
| Lockstep.SentParts | g722/g722_encode.c:361-397 | what the decoder extracts from a sent code is what drove the encoder |
| Lockstep.StaysInLockstep | g722/g722_decode.c:297-380 | after any run the decoder's low band equals the encoder's in every field, whatever the bandwidth flags, and the high band too when both sides run it |
| DelayLines.DecoderHoldsRecentPast | g722/g722_decode.c:116-128 | after any codes the delay lines of each band a decoder runs hold its last six quantized differences and its last two reconstructed and partially reconstructed samples, zeros before the start |
| DelayLines.EncoderHoldsRecentPast | g722/g722_encode.c:116-128 | after any samples the delay lines of an encoder hold the same past, of the codes it has sent |
| DelayLines.CoefficientsFollowStandard | g722/g722_decode.c:68-128 | after every code of every run the pole and zero coefficients are those the formulas of ITU-T G.722 give for the past of the run, up to the rounding stated above |
| DelayLines.PredictionFollowsStandard | g722/g722_decode.c:130-147 | and the prediction is the one those formulas give: poles on the reconstructed signal, zeros on the quantized differences, limited sum |
| DelayLines.StepFollowsStandard | g722/g722_decode.c:332-346 | and the log step follows the leaky update, the step size the log step |
| DelayLines.StepsConverge | g722/g722_decode.c:332-340 | two decoders that start with different log steps come together by 127/128 at every code, up to rounding |
| Lockstep.EmbeddedEncoder | g722/g722_encode.c:361-397 | the 56 and 48 kbit/s streams are the 64 kbit/s stream with each code cut by one or two bits, with identical band states |
| Lockstep.EmbeddedDecoder | g722/g722_decode.c:297-346 | any byte stream at all leaves the decoders of the three rates in the same state |
| Lockstep.SilentStep | g722/g722_decode.c:350-380 | the high-band code 3 keeps a silent band silent and drives its first pole coefficient to 192 or more |
| Lockstep.Interworking | g722/g722_private.h:35-37 | a wideband decoder fed by a narrowband encoder puts out a zero high band on every run, although its pole coefficients never return to zero |
| ErrorBound.SaturationOverloads | g722/g722_encode.c:325-337 | a saturated difference always falls into the overload cell, so outside it the difference is exact |
| ErrorBound.LimitIsNearest | g722/g722_decode.c:318-360 | what a decoder makes of any code in either band is the nearest 15-bit value to prediction plus quantized difference |
| ErrorBound.LowBandError | g722/g722_decode.c:318-326 | outside the overload cell a decoder in the same state reconstructs the sample to within the width of its cells; LIMIT never makes it worse |
| ErrorBound.LowBandAccurateIff | g722/g722_decode.c:318-326 | from every legal state and at every rate, the 15-bit samples of a cell are reconstructed that accurately if and only if it is not the overload cell |
| ErrorBound.FarthestMissed | g722/g722_encode.c:331-337 | from every legal state the sample farthest from the prediction overloads and is missed by more than any cell width |
| ErrorBound.LowBandErrorOnRun | g722/g722_decode.c:297-346 | that bound for every sample of every run from reset, any rate and any bandwidth flags |
| ErrorBound.HighBandError | g722/g722_decode.c:350-360 | the same for the inner cells of the high band |
| ErrorBound.HighBandAccurateIff | g722/g722_decode.c:350-360 | from every legal state, exactly the inner cells of the high band are reconstructed within their width |
| ErrorBound.HighBandErrorOnRun | g722/g722_decode.c:348-380 | the bound of the inner cells on every wideband run |
| ErrorBound.NarrowbandError | g722/g722_decode.c:387-391 | 8 kHz in, 8 kHz out, any rate and signal: the output for a sample outside the overload cell is within twice the width of its cells plus one of it |
| ErrorBound.NarrowbandAccurateIff | g722/g722_decode.c:387-391 | after every signal and at every rate, the samples of a cell come out within that bound if and only if it is not the overload cell |
| ErrorBound.TestModeError | g722/g722_decode.c:382-386 | in the ITU test mode every input sample comes out twice, within the bound of the low and of the high band, in that order |
| ErrorBound.OverloadExample | g722/g722_encode.c:331-337 | a loud first sample, 16383, is decoded as 24, 22 or 19 at the three rates |
| Filterbank.TapSymmetric | g722/g722_encode.c:255-258 | the 12 stored coefficients, read in the two directions of the loop, are a linear-phase 24-tap filter |
| Filterbank.SumBounds | g722/g722_encode.c:312-320 | no partial tap sum over 16-bit history values leaves 32 bits |
| Filterbank.HistoryIsRecentPast | g722/g722_encode.c:306-310 | the in-place shift buffer always holds the last 24 input samples, zeros before the start |
| Filterbank.SumsAreFir | g722/g722_encode.c:312-322 | sum and difference of the two tap sums are the 24-tap filter and its mirrored twin over the whole signal |
| Filterbank.PairsAreFir | g722/g722_encode.c:302-323 | every sub-band pair of a wideband signal is those two filters at every second sample |
| Reconstruction.SamplesAreFir | g722/g722_decode.c:394-410 | the two output samples of every decoded pair are the two phases of that filter, the even one over the differences and the odd one over the sums of the bands, silent before the start |
| Reconstruction.Products | g722/g722_encode.c:255-258 | half-band property of the 24 taps: multiplied with each other the two phases give 16779510 (2^24 and 2294) in the middle and at most 4263 anywhere else |
| Reconstruction.QmfPairDelays | g722/g722_decode.c:394-410 | transmit and receive QMF with nothing in between give every signal back 22 samples later, within 7 units plus 0.25 percent of its peak |
| Reconstruction.QmfToleranceSmall | g722/g722_decode.c:394-410 | that is 86 units at full scale |
| Reconstruction.ReceiveClose | g722/g722_decode.c:394-410 | pairs that are off by a and b give samples that are off by no more than the gain of the filter allows |
| Filterbank.FirCausal | g722/g722_encode.c:302-323 | the filter does not look ahead, so later samples cannot change an earlier pair |
| BitStream.PackConserves | g722/g722_encode.c:400-410 | every bit of every code is on the wire or in the carry, in order, exactly once; at most seven are carried |
| BitStream.UnpackConserves | g722/g722_decode.c:280-291 | the unpacker turns the same bit string into codes and a carry of at most seven bits |
| BitStream.PackedRoundTrip | g722/g722_decode.c:278-291 | at 6 and 7 bits the codes that come out are a prefix of those that went in, all bits are accounted for on both sides, the number of codes out is given exactly, and a whole code stays behind if and only if the bytes end on a code boundary |
| BitStream.UnpackStops | g722/g722_decode.c:278-291 | from any carry the unpacker stops with 8 - bits to 7 bits left |
| BitStream.CodesOutForm | g722/g722_decode.c:278-291 | so how many codes it has made of n bits, and when a whole one is left over |
| BitStream.PackAppend | g722/g722_encode.c:400-410 | packing in two parts is packing in one |
| BitStream.UnpackAppend | g722/g722_decode.c:278-291 | unpacking in two parts is unpacking in one, also when a whole code is left over between them |
| Session.EncodeInTwoCalls | g722/g722_encode.c:291-417 | two calls of the encoder give the bytes and the final state of one |
| Session.DecodeInTwoCalls | g722/g722_decode.c:278-413 | two calls of the decoder give the samples and the final state of one, wherever the bytes are split |
| Session.EncodeCallsAreOne | g722/g722_encode.c:205-418 | any number of encoder calls are one call |
| Session.DecodeCallsAreOne | g722/g722_decode.c:204-414 | any number of decoder calls are one call |
| Session.TransportKeepsCodes | g722/g722_decode.c:278-295 | packed or not, the decoder gets exactly the stated number of the encoder's codes, in order: at most two short, none short without packing |
| Session.EndToEnd | g722/g722_decode.c:278-380 | any input, rate, packing, bandwidths and cuts into calls on both sides: the decoder's bands are the encoder's of at most two codes earlier, and both machines are in a legal state |
| Session.NarrowbandEndToEnd | g722/g722_decode.c:387-391 | 8 kHz speech through any sequence of calls, packed or not, comes out at most two samples short and faithful wherever it does not overload |
| Wideband.SamplesOfCalls | g722/g722_decode.c:204-414 | what a wideband decoder puts out for any bytes in any calls, sample by sample |
| Wideband.WidebandError | g722/g722_decode.c:394-410 | 16 kHz in, 16 kHz out, any rate and signal: wherever the last twelve pairs fall into bounded cells, a sample is within the QMF tolerance plus the widths of the cells, times the filter gain, of the input 22 samples earlier |
| Wideband.WidebandEndToEnd | g722/g722_decode.c:204-414 | the same through any sequence of calls, packed or not, with the exact number of samples; the narrowing to 16 bits changes nothing if the signal leaves room for the tolerance |
| Session.EncodeOneMore | g722/g722_encode.c:291-416 | what one pass of the loop adds to state and output, inside the space of the whole call |
| Session.DecodeFirst | g722/g722_decode.c:278-412 | what one pass does, and that the rest of the bytes decodes as before from the state it leaves |
| G722Encoder.Encoder.constructor | g722/g722_encode.c:176-194 | the reset state, the configuration of rate and options, and the invariant |
| G722Encoder.Encoder.TransmitQmf | g722/g722_encode.c:306-322 | the in-place filter is the tap sums over the shifted history, without overflow |
| G722Encoder.ShiftDown | g722/g722_encode.c:306-308 | the upward in-place loop moves every entry down by two, none twice |
| G722Encoder.TapSums | g722/g722_encode.c:312-319 | the accumulating loop is the two tap sums, without overflow |
| G722Encoder.Encoder.Quantl | g722/g722_encode.c:328-337 | the search loop with its break gives the code of the cell |
| G722Encoder.Encoder.EncodeLow | g722/g722_encode.c:325-359 | the low-band blocks, in place, send the code of the sample and adapt by it |
| G722Encoder.Encoder.EncodeHigh | g722/g722_encode.c:368-396 | the same for the high band |
| G722Encoder.Encoder.EncodePair | g722/g722_encode.c:325-398 | both bands and the code word, which fits its width |
| G722Encoder.Encoder.PackCode | g722/g722_encode.c:400-410 | the packing statements, in a 32-bit buffer that never overflows |
| G722Encoder.Encoder.Split | g722/g722_encode.c:293-323 | the three ways to make a sub-band pair of the next samples |
| G722Encoder.Encoder.Emit | g722/g722_encode.c:400-415 | the code goes out packed or as a byte; nothing else in the output buffer changes |
| G722Encoder.Encoder.Pass | g722/g722_encode.c:291-416 | one pass of the loop is one step of the run on values |
| G722Encoder.Encoder.Encode | g722/g722_encode.c:205-418 | the whole call, for even and odd lengths: bytes and final state are those of the run on values over the samples read, and the rest of the output buffer is untouched |
| G722Encoder.ReadLength | g722/g722_encode.c:291-311 | a call reads whole passes: never less than its length, less than one pass more |
| G722Decoder.Decoder.constructor | g722/g722_decode.c:175-193 | the reset state, the configuration of rate and options, and the invariant |
| G722Decoder.Decoder.TakeCode | g722/g722_decode.c:280-295 | the next code and the new carry; a pass without a new byte uses up carried bits, so the loop ends |
| G722Decoder.Decoder.Fields | g722/g722_decode.c:297-317 | the switch over the rate gives the indices and the table value of the code |
| G722Decoder.Decoder.DecodeLow | g722/g722_decode.c:297-346 | the low-band blocks, in place, reconstruct the sample and adapt |
| G722Decoder.Decoder.ReconsLow | g722/g722_decode.c:318-326 | reconstruction and LIMIT, without overflow |
| G722Decoder.Decoder.DecodeHigh | g722/g722_decode.c:350-379 | the same for the high band |
| G722Decoder.Decoder.DecodeCode | g722/g722_decode.c:297-380 | both bands of one code; both samples are 15-bit values |
| G722Decoder.Decoder.Output | g722/g722_decode.c:382-411 | the three ways to make samples of a pair; nothing else in the output buffer changes |
| G722Decoder.Decoder.ReceiveQmf | g722/g722_decode.c:396-407 | the in-place receive filter is the tap sums over the shifted history, without overflow |
| G722Decoder.Decoder.Pass | g722/g722_decode.c:278-412 | one pass of the loop is one step of the run on values |
| G722Decoder.Decoder.Decode | g722/g722_decode.c:204-414 | the whole call: samples and final state are those of the run on values, for any bytes, and the loop terminates |
| G722RoundTrip.Send | g722/g722_encode.c:176-418 | a new encoder and one call: the bytes of the signal, in a buffer of as many bytes as there are samples |
| G722RoundTrip.Receive | g722/g722_decode.c:175-414 | a new decoder and one call: the samples of those bytes |
| G722RoundTrip.EncodeAndDecode | g722/g722_decode.c:175-414 | 8 kHz speech through the two objects, any rate and packing: exactly as many samples as whole bytes carry, each faithful outside the overload cell |
| RingMemory.ScatterGather | softphone/src/ethernetif.c:250-292 | a frame that fits the ring is read back as it was written, from any position |
| RingMemory.IntactIffFits | softphone/src/ethernetif.c:250-292 | all frames of a length survive if and only if that length fits the ring; a longer one overwrites its own beginning |
| RingMemory.PutInBuffer | softphone/src/ethernetif.c:264-290 | a `memcpy` inside the d-th buffer is the next piece of one write around the circular memory |
| RingMemory.NextIsNth | softphone/STM32F4xx_HAL_Driver/Src/stm32f4xx_hal_eth.c:510-519 | following the descriptor chain is counting on around the ring |
| RingMemory.GivenExactly | softphone/src/ethernetif.c:377-385 | a loop over n descriptors sets the OWN bits of those n and of no other |
| RingMemory.FrameMarked | softphone/STM32F4xx_HAL_Driver/Src/stm32f4xx_hal_eth.c:725-754 | the first-segment bit is set on the first and the last-segment bit on the last descriptor of a frame, and on no other of them |
| RingMemory.DelimitedOnce | softphone/STM32F4xx_HAL_Driver/Src/stm32f4xx_hal_eth.c:725-754 | so the bits of the descriptors determine how long the frame is |
| RingMemory.DmaSendsFrame | softphone/STM32F4xx_HAL_Driver/Src/stm32f4xx_hal_eth.c:725-754 | descriptors programmed full but for the last one make the DMA read exactly the frame |
| EthernetTx.TxRing.constructor | softphone/STM32F4xx_HAL_Driver/Src/stm32f4xx_hal_eth.c:478-530 | a ring of free buffers |
| EthernetTx.TxRing.CopyInto | softphone/src/ethernetif.c:267-290 | a copy into a free buffer extends the written data and touches no owned buffer |
| EthernetTx.TxRing.CopyPbuf | softphone/src/ethernetif.c:251-292 | one payload is cut at the buffer ends and appended, or the copy stops in front of the first owned buffer; the loop terminates also with a full buffer |
| EthernetTx.TxRing.CopyChain | softphone/src/ethernetif.c:250-292 | success if and only if every buffer the payloads reach is free; then the ring holds the concatenated payloads and the frame length is their sum |
| EthernetTx.TxRing.GiveBuffer | softphone/STM32F4xx_HAL_Driver/Src/stm32f4xx_hal_eth.c:727-754 | one descriptor is marked, sized and given away, and no other changes |
| EthernetTx.TxRing.TransmitFrame | softphone/STM32F4xx_HAL_Driver/Src/stm32f4xx_hal_eth.c:670-755 | exactly the needed descriptors are marked, programmed and given away, all full but the last; or nothing changes |
| EthernetTx.TxRing.Output | softphone/src/ethernetif.c:236-311 | `ERR_OK` if and only if every reached buffer is free; then the DMA finds one frame, exactly the payloads; on `ERR_USE` nothing is given away; owned buffers and descriptors are never written |
| EthernetTx.PendingFrameKept | softphone/src/ethernetif.c:253-278 | a frame the DMA still owns is the same frame after any later call |
| EthernetTx.PendingFrameDelimited | softphone/src/ethernetif.c:253-278 | and it is still delimited as it was |
| EthernetRx.RxRing.constructor | softphone/STM32F4xx_HAL_Driver/Src/stm32f4xx_hal_eth.c:545-600 | a ring whose buffers all belong to the DMA |
| EthernetRx.RxRing.FillPbuf | softphone/src/ethernetif.c:351-374 | one payload is the next piece of the circular memory, however many buffers it spans |
| EthernetRx.RxRing.FillChain | softphone/src/ethernetif.c:346-375 | the concatenated payloads are the frame, for every cut of the chain |
| EthernetRx.RxRing.Input | softphone/src/ethernetif.c:321-399 | the frame arrives in the chain, and exactly `SegCount` descriptors from the first one on are given back, also when no pbuf could be allocated |
| EthernetRx.Loopback | softphone/src/ethernetif.c:236-399 | what is sent from one chain through both rings arrives unchanged in a chain of any other cut |
| Crc32.Crc32b | softphone/src/ethernetif_mac.c:10-30 | the two loops compute the CRC function of the first `len` bytes, for every length |
| Crc32.MaskedStep | softphone/src/ethernetif_mac.c:24-25 | the branch-free mask is the conditional addition of the polynomial |
| Crc32.BitStepLinear | softphone/src/ethernetif_mac.c:24-25 | a bit step is linear over GF(2) |
| Crc32.BitStepBijective | softphone/src/ethernetif_mac.c:24-25 | a bit step is a bijection on 32-bit words, with an explicit inverse |
| Crc32.WordIsBits | softphone/src/ethernetif_mac.c:20-26 | adding a word of up to 32 bits before the steps is adding its bits one by one between them |
| Crc32.FeedIsBits | softphone/src/ethernetif_mac.c:17-28 | the byte loop is a bit loop, lowest bit of each byte first |
| Crc32.CrcIsRemainder | softphone/src/ethernetif_mac.c:10-30 | for every message the CRC is the complemented remainder of schoolbook polynomial division (section 8 of RFC 1952) |
| Crc32.GeneratorCoefficients | softphone/src/ethernetif_mac.c:25 | the generator is x^32 + x^26 + x^23 + x^22 + x^16 + x^12 + x^11 + x^10 + x^8 + x^7 + x^5 + x^4 + x^2 + x + 1 |
| Crc32.BurstDetected | softphone/src/ethernetif_mac.c:10-30 | two different messages of one length that differ only within 32 consecutive bits, so within four bytes, never have the same CRC |
| Crc32.WideWindow | softphone/src/ethernetif_mac.c:24-25 | of all 33-bit differences exactly zero and the generator leave no trace in the register |
| Crc32.WideBurstMissedIff | softphone/src/ethernetif_mac.c:10-30 | two messages of one length that differ only within 33 consecutive bits have the same CRC if and only if they are equal or differ there by the generator |
| Crc32.GeneratorIsInvisible | softphone/src/ethernetif_mac.c:25 | a difference equal to the generator is never seen, wherever it is |
| Crc32.FiveBytesMissed | softphone/src/ethernetif_mac.c:10-30 | putting the five bytes of the generator in the place of five zeros never changes the CRC, in any message |
| Dtmf.FrequenciesFound | baresip/src/dtmf.c:113-119 | the lookup finds the key of the digit if there is one, and the empty entry otherwise |
| Dtmf.KeypadGrid | baresip/src/dtmf.c:39-57 | the sixteen keys form the keypad: each has the tone of its row and the tone of its column |
| Dtmf.NoSuchKey | baresip/src/dtmf.c:39-57 | any other digit is silent |
| Dtmf.NearestDuration | baresip/src/dtmf.c:97-111 | a duration is the nearest of 1 to 8191 ms to the one given; zero means 40 |
| Dtmf.DurationExactIff | baresip/src/dtmf.c:97-111 | the duration in samples is the one asked for if and only if it fits 16 bits, for every duration and sample rate |
| Dtmf.LongToneCut | baresip/src/dtmf.c:97-111 | 8191 ms at 16 kHz should be 131056 samples and come out as 65520 |
| Dtmf.DefaultExactIff | baresip/src/audio.c:1484 | the default duration, the only one asked for, is exact if and only if the sample rate is below 1638400 |
| Dtmf.Lookup | baresip/src/dtmf.c:113-119 | the loop is that lookup and stays inside the table |
| Dtmf.Generator.constructor | baresip/src/dtmf.c:80-83 | a zeroed generator is the empty queue |
| Dtmf.Generator.IsEmpty | baresip/src/dtmf.c:80-83 | true if and only if nothing is queued |
| Dtmf.Generator.QueueDigit | baresip/src/dtmf.c:85-131 | the tone and its gap are appended, or the digit is refused and nothing changes; refused if and only if 126 entries are unread |
| Dtmf.Generator.Append | baresip/src/dtmf.c:121-128 | the two ring writes append to the queue and overwrite no unread entry |
| Dtmf.Generator.Advance | baresip/src/dtmf.c:170-174 | dropping the first entry makes the queue shorter, so the `goto` terminates |
| Dtmf.Generator.GetSample | baresip/src/dtmf.c:158-178 | one request plays one sample, across the end of an entry, or answers `EINVAL` on an empty queue |
| Dtmf.SliceExtend | baresip/src/dtmf.c:121-128 | entries written behind the unread ones extend them, across the wrap of the ring |
| Dtmf.SliceTail | baresip/src/dtmf.c:170-174 | moving the read position drops exactly the first unread entry |
| Dtmf.PlayedPending | baresip/src/dtmf.c:158-178 | a request takes exactly the first pending sample, and is refused only when none is pending |
| Dtmf.NothingLost | baresip/src/dtmf.c:85-178 | for any interleaving of digits and requests, the delivered and the pending samples together are exactly the samples of the accepted tones and gaps, in order, each entry played for max(1, duration) samples |
| Dtmf.UnreadAreLast | baresip/src/dtmf.c:85-178 | the entries that have been read are a prefix of the accepted ones |
| Dtmf.RefusalMeansDone | baresip/src/dtmf.c:158-178 | once a request is refused, every sample of every accepted digit has been delivered |
| RtpSequence.ForwardExactIff | baresip/src/stream.c:125-144 | a forward step is counted right if and only if it is below 3000, anywhere in the 16-bit cycle |
| RtpSequence.BehindRefusedIff | baresip/src/stream.c:132-139 | a packet is refused without effect if and only if it is at most 100 behind (Appendix A.1 of RFC 3550) |
| RtpSequence.RefusalKinds | baresip/src/stream.c:132-139 | -1 exactly for a repeat, -2 exactly for 1 to 100 behind |
| RtpSequence.RestartIff | baresip/src/stream.c:132-141 | which steps count as a restart: taken, no loss, and the numbers go on from there |
| RtpSequence.EveryNumberCounted | baresip/src/stream.c:125-144 | over any orderly run without a harmful underrun, accepted packets plus reported losses are the span of sequence numbers plus one, however often the number wraps |
| RtpSequence.AlwaysExactIff | baresip/src/stream.c:202-233 | over an orderly run the accounting is exact after every step if and only if no underrun comes at a number above 100 |
| RtpSequence.StreamExactIff | baresip/src/stream.c:164-241 | the same for a stream that has handled any run of packets; without a jitter buffer it is always exact |
| RtpSequence.StreamFollows | baresip/src/stream.c:164-241 | over any run of packets the stream keeps the number of the accounting |
| RtpSequence.StartsWithPacket | baresip/src/stream.c:215-223 | underruns before the first frame are not counted, so a run always starts with a packet |
| RtpSequence.CallsInOrder | baresip/src/stream.c:226-239 | over any run the handler is called exactly once for each packet or underrun, in order, with its number and its body, and once directly before it for each loss it reveals, without a body and with the header of that packet |
| RtpSequence.LossyIff | baresip/src/stream.c:226-239 | in an orderly run a loss is reported exactly at a step of 2 to 2999 beyond the highest number so far, and it is the number of packets between |
| RtpSequence.StreamKnowsSource | baresip/src/stream.c:189-226 | over any run the stream has counted the packets it has heard, knows the source of the last one, and has started the jitter buffer with the first frame |
| RtpSequence.FlushIff | baresip/src/stream.c:192-208 | the jitter buffer is flushed exactly when a packet for it comes from another source than the last one heard, unless that source was 0 |
| RtpSequence.Stream.constructor | baresip/src/stream.c:327-333 | no sequence number and no source yet |
| RtpSequence.Stream.LostCalc | baresip/src/stream.c:125-144 | the branches answer the loss and keep the sequence number as the function on values |
| RtpSequence.Stream.RtpRecv | baresip/src/stream.c:164-241 | which packets count, when the jitter buffer is flushed, which sequence number is accounted, and which calls the handler gets, each with the header it carries and with or without a body |
| RtpSequence.UnderrunHarmlessIff | baresip/src/stream.c:215-229 | an underrun of the jitter buffer leaves the accounting alone if and only if the last number is at most 100 |
| RtpSequence.NextAfterUnderrun | baresip/src/stream.c:215-229 | for every last number, whether the next packet in order is then counted right, refused, or reported as the end of a loss that never happened |

## Left out

- G722Encoder.Encoder.Encode: in QMF mode an odd length makes the source read one sample past it; the model does too, so that sample must be there. The output buffer must have room for the bytes of the call, and input and output must not overlap.
- G722Decoder.Decoder.Decode: the output buffer must have room for the samples of the call, and input and output must not overlap.
- ErrorBound.NarrowbandError: excludes the ITU test mode, which no initialization sets; the lockstep, bit-stream and call theorems hold in that mode too.
- Wideband.WidebandEndToEnd: the bound is on the value before it is narrowed to 16 bits by wrap-around, as in the source; the two are the same for signals that leave room for the tolerance. It needs the last twelve pairs to fall into bounded cells and into 15 bits.
- EthernetRx.RxRing.DmaReceive: a model of the hardware, not of code in the repository; it fills the ring with a frame no longer than the ring. DMA activity in the middle of a driver call is not modelled.
- EthernetRx.RxRing.Input: the answers of `HAL_ETH_GetReceivedFrame_IT` and of `pbuf_alloc` are inputs; the descriptor scan and the pbuf allocator are not part of this model.
- EthernetTx.TxRing.Output: pbufs have 16-bit lengths and a total below 2^32, and their payloads lie outside the transmit buffers; the underflow flag and poll registers of the DMA are not modelled. The ring geometry is a parameter (the firmware uses 5 buffers of 1524 bytes).
- EthernetTx.TxRing.TransmitFrame: the HAL lock with its busy return and the HAL state field are not modelled; one thread sends.
- Crc32.Crc32b: the byte index is unbounded, while the source keeps it in an `int`; inputs of 2^31 bytes and more are outside the source's own range.
- Dtmf.Generator.GetSample: delivers which sample of which entry is due; the floating-point oscillators (`dtmf_set_state`, `dtmf_compute_sample`) are not modelled, and the two frequencies stand for their coefficients.
- RtpSequence.EveryNumberCounted: packets more than 100 behind or 3000 and more ahead of the highest one restart the count in the source, so they are excluded; RtpSequence.ForwardExactIff and RtpSequence.BehindRefusedIff give the exact limits. A change of the source does not reset the number, so a run across one is orderly only by accident.
- RtpSequence.Stream.RtpRecv: the jitter buffer itself, byte counts, time stamps, the media direction lookup and the logging are inputs or left out.
- Allocation and destruction of contexts, memory debugging, printing and module loading.
- The assembly of the MAC address from the CRC and the chip identifier.
- The SIP user agent, call control, registration, SDP and ICE: they depend on libraries whose code is not part of this model.
- HAL, GPIO, clock and interrupt code beyond the descriptor functions above, FreeRTOS and lwIP internals.
- Simple registries and helpers (file system, ADC clients, command tables, codec and filter lists), which would add only easy members.
