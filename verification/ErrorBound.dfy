/** How far the decoder's output can be from the encoder's input. */
module ErrorBound {
  import opened FixedPoint
  import opened Tables
  import opened StepSize
  import opened Quantizer
  import opened Codec
  import opened Lockstep
  import opened Filterbank
  import P = Predictor

  /** The search index the encoder ends on for a low-band sample. */
  function IndexOf(st: P.BandState, xlow: int): (i: int)
    ensures 1 <= i <= 30
  {
    SearchIndex(Difference(xlow, st), st.det)
  }

  /** The sample does not fall into the last, open cell of the quantizer. */
  predicate NoOverload(st: P.BandState, xlow: int) {
    IndexOf(st, xlow) <= 29
  }

  /** Width of the bounded cells the sent code stands for, in sub-band units. */
  function WidthAt(st: P.BandState, xlow: int, bits: int): int
    requires IsRate(bits)
  {
    CellWidth(IndexOf(st, xlow), st.det, bits)
  }

  lemma ClampIsContraction(x: int, y: int, tolerance: int, lo: int, hi: int)
    requires lo <= hi && Within(x, y, tolerance)
    ensures Within(Clamp(x, lo, hi), Clamp(y, lo, hi), tolerance)
  {}

  predicate Fits15(x: int) {
    -16384 <= x <= 16383
  }

  function Distance(x: int, y: int): int {
    if x >= y then x - y else y - x
  }

  /** LIMIT: what a decoder makes of a code in either band is the nearest 15-bit value to its prediction plus
      the quantized difference, for any code. */
  lemma LimitIsNearest(m: Mode, st: P.BandState, code: nat, y: int)
    requires Fits15(y)
    ensures var v, rlow := st.s + st.det * Inverse(LowIndex(code, m.bits), m.bits) / 0x8000,
                           ReconstructLow(st, code, m.bits);
            Fits15(rlow) && Distance(rlow, v) <= Distance(y, v)
    ensures var v, rhigh := st.s + st.det * Qm2(HighIndex(code, m.bits)) / 0x8000, ReconstructHigh(m, st, code);
            !m.eightK ==> Fits15(rhigh) && Distance(rhigh, v) <= Distance(y, v)
  {
    hide Inverse, LowIndex, HighIndex, Qm2;
  }

  /** A saturated difference lies beyond every decision level, so it overloads. */
  lemma SaturationOverloads(st: P.BandState, xlow: int)
    requires LowOk(st) && NoOverload(st, xlow)
    ensures Difference(xlow, st) == xlow - st.s
  {
    hide Threshold, P.Stable, Scale, SearchIndex;
    LowStepRange(st.nb);
    OverloadReach(Difference(xlow, st), st.det, 8);
  }

  /** What a decoder in the same state makes of the sent code. */
  lemma ReconstructedSample(m: Mode, bs: Bands, x: Pair)
    ensures ReconstructLow(bs.low, EncodeCode(m, bs, x), m.bits)
            == Clamp(bs.low.s + Requantized(Difference(x.low, bs.low), bs.low.det, m.bits), -16384, 16383)
  {
    hide Inverse, EncodeCode, LowIndex, LowCode, Truncate;
    SentParts(m, bs, x);
    TruncateInTable(SentLow(bs.low, x.low), m.bits);
  }

  /** The low-band sample a decoder in the same state makes of the sent code is within one cell width
      of the (limited) sample the encoder saw. The LIMIT step never makes it worse. */
  lemma LowBandError(m: Mode, bs: Bands, x: Pair)
    requires LowOk(bs.low) && NoOverload(bs.low, x.low)
    ensures Within(ReconstructLow(bs.low, EncodeCode(m, bs, x), m.bits), Clamp(x.low, -16384, 16383),
                   WidthAt(bs.low, x.low, m.bits))
  {
    hide P.Stable, Scale, Requantized, EncodeCode, ReconstructLow, CellWidth, SearchIndex;
    var st, el := bs.low, Difference(x.low, bs.low);
    LowStepRange(st.nb);
    SaturationOverloads(st, x.low);
    ReconstructedSample(m, bs, x);
    ReconstructionError(el, st.det, m.bits);
    ClampIsContraction(st.s + Requantized(el, st.det, m.bits), x.low,
                       WidthAt(st, x.low, m.bits), -16384, 16383);
  }

  /** Every 15-bit sample that falls into cell i is reconstructed within the width of its cells. */
  ghost predicate LowBandAccurate(m: Mode, bs: Bands, i: int)
    requires 1 <= i <= 30
  {
    forall x: Pair :: -16384 <= x.low <= 16383 && IndexOf(bs.low, x.low) == i ==>
                        Within(ReconstructLow(bs.low, EncodeCode(m, bs, x), m.bits), x.low,
                               CellWidth(i, bs.low.det, m.bits))
  }

  /** The 15-bit sample farthest from the prediction. */
  function Farthest(st: P.BandState): int {
    if st.s <= 0 then 16383 else -16384
  }

  /** From every legal state the farthest sample overloads and is missed by more than any cell width. */
  lemma FarthestMissed(m: Mode, bs: Bands, x: Pair)
    requires LowOk(bs.low) && x.low == Farthest(bs.low)
    ensures IndexOf(bs.low, x.low) == 30
    ensures !Within(ReconstructLow(bs.low, EncodeCode(m, bs, x), m.bits), x.low, 3977)
    ensures 0 <= CellWidth(30, bs.low.det, m.bits) <= 3756
  {
    hide Scale, Requantized, EncodeCode, ReconstructLow, CellWidth, SearchIndex, Threshold;
    var st, el := bs.low, Difference(x.low, bs.low);
    LowStepRange(st.nb);
    OverloadReach(el, st.det, m.bits);
    ReconstructedSample(m, bs, x);
  }

  /** From every legal state and at every rate, the samples of a cell are reconstructed within the width of
      its cells if and only if it is not the overload cell. */
  lemma LowBandAccurateIff(m: Mode, bs: Bands, i: int)
    requires LowOk(bs.low) && 1 <= i <= 30
    ensures LowBandAccurate(m, bs, i) <==> i <= 29
  {
    hide LowOk, CellWidth, ReconstructLow, EncodeCode, IndexOf;
    if i <= 29 {
      forall x: Pair | -16384 <= x.low <= 16383 && IndexOf(bs.low, x.low) == i
        ensures Within(ReconstructLow(bs.low, EncodeCode(m, bs, x), m.bits), x.low,
                       CellWidth(i, bs.low.det, m.bits))
      {
        LowBandError(m, bs, x);
      }
    } else {
      FarthestMissed(m, bs, Pair(Farthest(bs.low), 0));
    }
  }

  /** The low band, over a whole run from reset: any input, any rate, whatever the bandwidth flags. */
  lemma LowBandErrorOnRun(e: Mode, d: Mode, xs: seq<Pair>, n: nat)
    requires e.bits == d.bits && n < |xs|
    ensures var st := EncodeBands(e, INIT, xs[..n]).low;
            NoOverload(st, xs[n].low) ==>
              Within(DecodePairs(d, INIT, EncodeCodes(e, INIT, xs))[n].low, Clamp(xs[n].low, -16384, 16383),
                     WidthAt(st, xs[n].low, e.bits))
  {
    hide LowOk, HighOk, ReconstructLow, ReconstructHigh, EncodeCode, NoOverload, WidthAt, Within, INIT;
    var codes := EncodeCodes(e, INIT, xs);
    EncodePrefix(e, INIT, xs, n);
    DecodePrefix(d, INIT, codes, n);
    StaysInLockstep(e, d, INIT, INIT, xs[..n]);
    InitOk();
    EncoderInvariant(e, INIT, xs[..n]);
    var bs := EncodeBands(e, INIT, xs[..n]);
    if NoOverload(bs.low, xs[n].low) {
      LowBandError(e, bs, xs[n]);
    }
  }

  // ---------- High band ----------

  /** The inner high-band cell, where the code does not stand for an unbounded range. */
  predicate InnerHigh(st: P.BandState, xhigh: int) {
    Magnitude(Difference(xhigh, st)) < 564 * st.det / 0x1000
  }

  lemma HighBandError(m: Mode, bs: Bands, x: Pair)
    requires HighOk(bs.high) && !m.eightK && InnerHigh(bs.high, x.high)
    ensures Within(ReconstructHigh(m, bs.high, EncodeCode(m, bs, x)), Clamp(x.high, -16384, 16383),
                   564 * bs.high.det / 0x1000)
  {
    hide P.Stable, Scale, EncodeCode, HighIndex;
    var st, eh := bs.high, Difference(x.high, bs.high);
    HighStepRange(st.nb);
    SentParts(m, bs, x);
    var q := Qm2(SentHigh(m, st, x.high));
    assert q == if eh < 0 then -1616 else 1616;
    assert eh == x.high - st.s;
    ClampIsContraction(st.det * q / 0x8000 + st.s, x.high, 564 * st.det / 0x1000, -16384, 16383);
  }

  /** Every 15-bit sample that falls into an inner cell, or every one that does not, is reconstructed within
      the width of the inner cells. */
  ghost predicate HighBandAccurate(m: Mode, bs: Bands, inner: bool) {
    forall x: Pair :: -16384 <= x.high <= 16383 && InnerHigh(bs.high, x.high) == inner ==>
                        Within(ReconstructHigh(m, bs.high, EncodeCode(m, bs, x)), x.high, 564 * bs.high.det / 0x1000)
  }

  lemma FarthestHighMissed(m: Mode, bs: Bands, x: Pair)
    requires HighOk(bs.high) && !m.eightK && x.high == Farthest(bs.high)
    ensures !InnerHigh(bs.high, x.high)
    ensures !Within(ReconstructHigh(m, bs.high, EncodeCode(m, bs, x)), x.high, 564 * bs.high.det / 0x1000)
  {
    hide P.Stable, Scale, EncodeCode, HighIndex;
    HighStepRange(bs.high.nb);
    SentParts(m, bs, x);
    var q := Qm2(SentHigh(m, bs.high, x.high));
    MulMono(-7408, q, bs.high.det);
    MulMono(q, 7408, bs.high.det);
  }

  /** From every legal state exactly the inner cells are reconstructed within their width. */
  lemma HighBandAccurateIff(m: Mode, bs: Bands, inner: bool)
    requires HighOk(bs.high) && !m.eightK
    ensures HighBandAccurate(m, bs, inner) <==> inner
  {
    hide HighOk, ReconstructHigh, EncodeCode, InnerHigh;
    if inner {
      forall x: Pair | -16384 <= x.high <= 16383 && InnerHigh(bs.high, x.high) == inner
        ensures Within(ReconstructHigh(m, bs.high, EncodeCode(m, bs, x)), x.high, 564 * bs.high.det / 0x1000)
      {
        HighBandError(m, bs, x);
      }
    } else {
      FarthestHighMissed(m, bs, Pair(0, Farthest(bs.high)));
    }
  }

  /** The high band, over a whole wideband run from reset. */
  lemma HighBandErrorOnRun(e: Mode, d: Mode, xs: seq<Pair>, n: nat)
    requires e.bits == d.bits && !e.eightK && !d.eightK && n < |xs|
    ensures var st := EncodeBands(e, INIT, xs[..n]).high;
            InnerHigh(st, xs[n].high) ==>
              Within(DecodePairs(d, INIT, EncodeCodes(e, INIT, xs))[n].high, Clamp(xs[n].high, -16384, 16383),
                     564 * st.det / 0x1000)
  {
    hide LowOk, HighOk, ReconstructLow, ReconstructHigh, EncodeCode, InnerHigh, Within, INIT;
    var codes := EncodeCodes(e, INIT, xs);
    EncodePrefix(e, INIT, xs, n);
    DecodePrefix(d, INIT, codes, n);
    StaysInLockstep(e, d, INIT, INIT, xs[..n]);
    InitOk();
    EncoderInvariant(e, INIT, xs[..n]);
    var bs := EncodeBands(e, INIT, xs[..n]);
    if InnerHigh(bs.high, xs[n].high) {
      HighBandError(e, bs, xs[n]);
      SameHigh(e, d, bs.high, codes[n]);
    }
  }

  lemma SameHigh(e: Mode, d: Mode, st: P.BandState, code: nat)
    requires e.bits == d.bits && e.eightK == d.eightK
    ensures ReconstructHigh(e, st, code) == ReconstructHigh(d, st, code)
  {}

  // ---------- Narrowband, end to end ----------

  lemma {:induction false} NarrowbandPairs(m: Mode, x: History, amp: seq<int>, k: nat)
    requires m.eightK && !m.ituTestMode && k < |amp|
    ensures Pairs(m, x, amp)[k] == Pair(amp[k] / 2, 0)
    ensures Pairs(m, x, amp)[..k] == Pairs(m, x, amp[..k])
  {
    var n := |amp| - 1;
    if k < n {
      NarrowbandPairs(m, x, amp[..n], k);
      assert amp[..n][..k] == amp[..k];
    }
  }

  lemma {:induction false} NarrowbandSamples(m: Mode, x: History, xs: seq<Pair>, k: nat)
    requires m.eightK && !m.ituTestMode && k < |xs|
    ensures |Samples(m, x, xs)| == |xs|
    ensures Samples(m, x, xs)[k] == ToInt16(xs[k].low * 2)
  {
    var n := |xs| - 1;
    if n > 0 {
      NarrowbandSamples(m, x, xs[..n], if k < n then k else 0);
    }
  }

  /** The output of a decoder that gets every code of an encoder, both from reset. */
  function Through(e: Mode, d: Mode, amp: seq<int>): seq<int16>
    requires WholePairs(e, amp)
  {
    Samples(d, SILENCE, DecodePairs(d, INIT, EncodeCodes(e, INIT, Pairs(e, SILENCE, amp))))
  }

  /** The low band of the encoder after some samples. */
  function LowAfter(e: Mode, amp: seq<int>): P.BandState
    requires WholePairs(e, amp)
  {
    EncodeBands(e, INIT, Pairs(e, SILENCE, amp)).low
  }

  predicate Narrowband(m: Mode) {
    m.eightK && !m.ituTestMode
  }

  /** Output sample k is as close to input sample k as the quantizer cell of that sample is wide, doubled
      by the shift to 16 bits, unless that cell is the overload cell. */
  predicate FaithfulAt(e: Mode, output: seq<int16>, amp: seq<int16>, k: nat)
    requires Narrowband(e) && k < |output| && k < |amp|
  {
    var st, xlow := LowAfter(e, amp[..k]), amp[k] / 2;
    NoOverload(st, xlow) ==> Within(output[k], amp[k], 2 * WidthAt(st, xlow, e.bits) + 1)
  }

  /** 8 kHz in, 8 kHz out, at any of the three rates and for any 16-bit signal: while sample n does not
      overload the quantizer, the sample that comes out is within twice the cell width plus one of the
      sample that went in. */
  lemma NarrowbandError(e: Mode, d: Mode, amp: seq<int16>, n: nat)
    requires e.bits == d.bits && Narrowband(e) && Narrowband(d) && n < |amp|
    ensures |Through(e, d, amp)| == |amp|
    ensures FaithfulAt(e, Through(e, d, amp), amp, n)
  {
    hide NoOverload, WidthAt, INIT, EncodeCodes, DecodePairs, EncodeBands, ReconstructLow;
    var xs := Pairs(e, SILENCE, amp);
    var ys := DecodePairs(d, INIT, EncodeCodes(e, INIT, xs));
    NarrowbandPairs(e, SILENCE, amp, n);
    NarrowbandSamples(d, SILENCE, ys, n);
    LowBandErrorOnRun(e, d, xs, n);
    LimitedOutput(d, EncodeCodes(e, INIT, xs), n);
  }

  lemma LimitedOutput(d: Mode, codes: seq<nat>, n: nat)
    requires n < |codes|
    ensures -16384 <= DecodePairs(d, INIT, codes)[n].low <= 16383
    ensures -16384 <= DecodePairs(d, INIT, codes)[n].high <= 16383
  {
    DecodePrefix(d, INIT, codes, n);
  }

  /** The decoder's sample for the last sample of a narrowband signal. */
  function LastSample(e: Mode, d: Mode, amp: seq<int16>): int16
    requires e.bits == d.bits && Narrowband(e) && Narrowband(d) && amp != []
  {
    NarrowbandError(e, d, amp, |amp| - 1);
    Through(e, d, amp)[|amp| - 1]
  }

  /** It is what a decoder in the encoder's state makes of the last code. */
  lemma LastSampleForm(e: Mode, d: Mode, amp: seq<int16>, a: int16)
    requires e.bits == d.bits && Narrowband(e) && Narrowband(d)
    ensures var bs := EncodeBands(e, INIT, Pairs(e, SILENCE, amp));
            LastSample(e, d, amp + [a]) == 2 * ReconstructLow(bs.low, EncodeCode(e, bs, Pair(a / 2, 0)), e.bits)
  {
    hide INIT, EncodeCode, EncodeBands, ReconstructLow, ReconstructHigh, Pairs, Samples, EncodeCodes, DecodeBands,
      DecodePairs, OutputHistory;
    var all, n := amp + [a], |amp|;
    var xs := Pairs(e, SILENCE, all);
    var codes := EncodeCodes(e, INIT, xs);
    assert all[..n] == amp;
    NarrowbandPairs(e, SILENCE, all, n);
    NarrowbandSamples(d, SILENCE, DecodePairs(d, INIT, codes), n);
    EncodePrefix(e, INIT, xs, n);
    DecodePrefix(d, INIT, codes, n);
    StaysInLockstep(e, d, INIT, INIT, xs[..n]);
    LimitedOutput(d, codes, n);
  }

  /** Whatever sample comes after a signal, if it falls into cell i it comes out faithfully. */
  ghost predicate NarrowbandAccurate(e: Mode, d: Mode, amp: seq<int16>, i: int)
    requires e.bits == d.bits && Narrowband(e) && Narrowband(d) && 1 <= i <= 30
  {
    forall a: int16 :: IndexOf(LowAfter(e, amp), a / 2) == i ==>
                         Within(LastSample(e, d, amp + [a]), a, 2 * CellWidth(i, LowAfter(e, amp).det, e.bits) + 1)
  }

  /** After every signal and at every rate, the samples of a cell come out within twice the width of its
      cells plus one if and only if it is not the overload cell. */
  lemma NarrowbandAccurateIff(e: Mode, d: Mode, amp: seq<int16>, i: int)
    requires e.bits == d.bits && Narrowband(e) && Narrowband(d) && 1 <= i <= 30
    ensures NarrowbandAccurate(e, d, amp, i) <==> i <= 29
  {
    hide LowOk, HighOk, INIT, EncodeBands, Pairs, CellWidth, IndexOf, LastSample, ReconstructLow, EncodeCode;
    var bs := EncodeBands(e, INIT, Pairs(e, SILENCE, amp));
    InitOk();
    EncoderInvariant(e, INIT, Pairs(e, SILENCE, amp));
    if i <= 29 {
      forall a: int16 | IndexOf(bs.low, a / 2) == i
        ensures Within(LastSample(e, d, amp + [a]), a, 2 * CellWidth(i, bs.low.det, e.bits) + 1)
      {
        LastSampleForm(e, d, amp, a);
        LowBandError(e, bs, Pair(a / 2, 0));
      }
    } else {
      var a: int16 := 2 * Farthest(bs.low);
      FarthestMissed(e, bs, Pair(a / 2, 0));
      LastSampleForm(e, d, amp, a);
      assert !Within(LastSample(e, d, amp + [a]), a, 2 * CellWidth(i, bs.low.det, e.bits) + 1);
    }
  }

  // ---------- The ITU test mode: both bands without the filters ----------

  lemma {:induction false} TestModePairs(m: Mode, x: History, amp: seq<int>, k: nat)
    requires m.ituTestMode && k < |amp|
    ensures |Pairs(m, x, amp)| == |amp|
    ensures Pairs(m, x, amp)[k] == Pair(amp[k] / 2, amp[k] / 2)
  {
    var n := |amp| - 1;
    if n > 0 {
      TestModePairs(m, x, amp[..n], if k < n then k else 0);
    }
  }

  lemma {:induction false} TestModeSamples(m: Mode, x: History, xs: seq<Pair>, k: nat)
    requires m.ituTestMode && k < |xs|
    ensures |Samples(m, x, xs)| == 2 * |xs|
    ensures Samples(m, x, xs)[2 * k] == ToInt16(xs[k].low * 2)
    ensures Samples(m, x, xs)[2 * k + 1] == ToInt16(xs[k].high * 2)
  {
    var n := |xs| - 1;
    if n > 0 {
      TestModeSamples(m, x, xs[..n], if k < n then k else 0);
    } else {
      assert xs[..n] == [];
    }
  }

  /** In the test mode every input sample comes out twice: as the low band sees it, and as the high band does. */
  lemma TestModeError(e: Mode, d: Mode, amp: seq<int16>, n: nat)
    requires e.bits == d.bits && e.ituTestMode && d.ituTestMode && !e.eightK && !d.eightK && n < |amp|
    ensures |Pairs(e, SILENCE, amp)| == |amp| && |Through(e, d, amp)| == 2 * |amp|
    ensures var bs, x := EncodeBands(e, INIT, Pairs(e, SILENCE, amp)[..n]), amp[n] / 2;
            && (NoOverload(bs.low, x) ==>
                  Within(Through(e, d, amp)[2 * n], amp[n], 2 * WidthAt(bs.low, x, e.bits) + 1))
            && (InnerHigh(bs.high, x) ==>
                  Within(Through(e, d, amp)[2 * n + 1], amp[n], 2 * (564 * bs.high.det / 0x1000) + 1))
  {
    hide NoOverload, WidthAt, InnerHigh, INIT, EncodeCodes, DecodePairs, EncodeBands, Pairs, Samples;
    var xs := Pairs(e, SILENCE, amp);
    var codes := EncodeCodes(e, INIT, xs);
    TestModePairs(e, SILENCE, amp, n);
    TestModeSamples(d, SILENCE, DecodePairs(d, INIT, codes), n);
    LowBandErrorOnRun(e, d, xs, n);
    HighBandErrorOnRun(e, d, xs, n);
    LimitedOutput(d, codes, n);
  }

  /** A loud first sample at each rate: what comes out is nowhere near what went in. */
  lemma OverloadExample(e: Mode, d: Mode)
    requires e.bits == d.bits
    ensures var xs := [Pair(16383, 0)];
            && !NoOverload(INIT.low, 16383)
            && DecodePairs(d, INIT, EncodeCodes(e, INIT, xs))[0].low
               == if e.bits == 8 then 24 else if e.bits == 7 then 22 else 19
  {
    hide EncodeCode, DecodeStep, EncodeStep, ReconstructLow, ReconstructHigh, SearchIndex, Requantized, Entry;
    var xs := [Pair(16383, 0)];
    assert xs[..0] == [];
    EncodePrefix(e, INIT, xs, 0);
    var codes := EncodeCodes(e, INIT, xs);
    assert codes[..0] == [];
    DecodePrefix(d, INIT, codes, 0);
    SearchIndexCell(16383, 32, 30);
    ReconstructedSample(e, INIT, xs[0]);
    InverseOfCode(16383, 32, e.bits);
    OverloadEntries();
  }
}
