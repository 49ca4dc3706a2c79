/** What the delay lines of the two bands hold after a run of the decoder or the encoder. */
module DelayLines {
  import opened FixedPoint
  import opened Tables
  import opened StepSize
  import opened Codec
  import opened Lockstep
  import P = Predictor

  datatype Which = LowBand | HighBand

  /** One band of a decoder that has been fed some codes since its reset. */
  function BandAfter(w: Which, m: Mode, codes: seq<nat>): P.BandState {
    var bs := DecodeBands(m, INIT, codes);
    if w.LowBand? then bs.low else bs.high
  }

  /** The quantized difference of step i, as both sides compute it for the adaptation. */
  function Difference(w: Which, m: Mode, codes: seq<nat>, i: int): int
    requires i < |codes|
  {
    if i < 0 then 0
    else
      var q := if w.LowBand? then Qm4(CoarseIndex(codes[i], m.bits)) else Qm2(HighIndex(codes[i], m.bits));
      BandAfter(w, m, codes[..i]).det * q / 0x8000
  }

  /** The reconstructed signal of step i: prediction plus difference. */
  function Reconstructed(w: Which, m: Mode, codes: seq<nat>, i: int): int
    requires i < |codes|
  {
    if i < 0 then 0 else Sat(BandAfter(w, m, codes[..i]).s + Difference(w, m, codes, i))
  }

  /** The partially reconstructed signal: zero-section prediction plus difference. */
  function Partial(w: Which, m: Mode, codes: seq<nat>, i: int): int
    requires i < |codes|
  {
    if i < 0 then 0 else Sat(BandAfter(w, m, codes[..i]).sz + Difference(w, m, codes, i))
  }

  /** The bands a mode runs: a narrowband codec leaves its high band alone. */
  predicate Runs(w: Which, m: Mode) {
    w.LowBand? || !m.eightK
  }

  /** Entry k of the difference line, and both signal lines, hold the recent past of the run. */
  predicate HoldsRecentPast(st: P.BandState, w: Which, m: Mode, codes: seq<nat>, k: nat)
    requires k < 6
  {
    var n := |codes|;
    && st.d[k] == Difference(w, m, codes, n - 1 - k)
    && st.r1 == Reconstructed(w, m, codes, n - 1) && st.r2 == Reconstructed(w, m, codes, n - 2)
    && st.p1 == Partial(w, m, codes, n - 1) && st.p2 == Partial(w, m, codes, n - 2)
  }

  /** One adaptation moves every line by one place. */
  lemma AdaptMoves(w: Which, m: Mode, codes: seq<nat>)
    requires Runs(w, m) && codes != []
    ensures var n := |codes| - 1;
            var before, after := BandAfter(w, m, codes[..n]), BandAfter(w, m, codes);
            && after.d == [Difference(w, m, codes, n)] + before.d[..5]
            && after.r1 == Reconstructed(w, m, codes, n) && after.r2 == before.r1
            && after.p1 == Partial(w, m, codes, n) && after.p2 == before.p1
  {
    hide P.Uppol1, P.Uppol2, P.Upzero, P.Filtep, P.ZeroSum, CoarseIndex, HighIndex;
  }

  /** What step i computes depends on the codes up to it only. */
  lemma PastIsPast(w: Which, m: Mode, codes: seq<nat>, n: nat, i: int)
    requires i < n <= |codes|
    ensures Difference(w, m, codes[..n], i) == Difference(w, m, codes, i)
    ensures Reconstructed(w, m, codes[..n], i) == Reconstructed(w, m, codes, i)
    ensures Partial(w, m, codes[..n], i) == Partial(w, m, codes, i)
  {
    if i >= 0 {
      assert codes[..n][..i] == codes[..i];
    }
  }

  /** After any codes at all the delay lines of a decoder hold exactly the last six quantized differences and
      the last two reconstructed and partially reconstructed samples of the band, zeros before the start. */
  lemma {:induction false} DecoderHoldsRecentPast(w: Which, m: Mode, codes: seq<nat>, k: nat)
    requires Runs(w, m) && k < 6
    ensures HoldsRecentPast(BandAfter(w, m, codes), w, m, codes, k)
  {
    hide Difference, Reconstructed, Partial, BandAfter;
    if codes == [] {
      NothingYet(w, m, codes, k);
    } else {
      var n := |codes| - 1;
      var before := BandAfter(w, m, codes[..n]);
      DecoderHoldsRecentPast(w, m, codes[..n], if k > 0 then k - 1 else 0);
      AdaptMoves(w, m, codes);
      PastIsPast(w, m, codes, n, n - 1);
      if k > 0 {
        PastIsPast(w, m, codes, n, n - k);
        assert BandAfter(w, m, codes).d[k] == before.d[k - 1];
      }
    }
  }

  lemma NothingYet(w: Which, m: Mode, codes: seq<nat>, k: nat)
    requires k < 6 && codes == []
    ensures HoldsRecentPast(BandAfter(w, m, codes), w, m, codes, k)
  {}


  /** After any samples the delay lines of an encoder hold the recent past of the codes it has sent. */
  lemma EncoderHoldsRecentPast(w: Which, m: Mode, xs: seq<Pair>, k: nat)
    requires Runs(w, m) && k < 6
    ensures var bs := EncodeBands(m, INIT, xs);
            HoldsRecentPast(if w.LowBand? then bs.low else bs.high, w, m, EncodeCodes(m, INIT, xs), k)
  {
    hide HoldsRecentPast, EncodeBands, DecodeBands, EncodeCodes;
    StaysInLockstep(m, m, INIT, INIT, xs);
    DecoderHoldsRecentPast(w, m, EncodeCodes(m, INIT, xs), k);
  }

  // ---------- One code, against the formulas of the standard ----------

  /** What a code adds to the log step. */
  function Increment(w: Which, m: Mode, code: nat): int {
    if w.LowBand? then Wl(Rl42(CoarseIndex(code, m.bits))) else Wh(Rh2(HighIndex(code, m.bits)))
  }

  function Limit(w: Which): int {
    if w.LowBand? then LOW_LIMIT else HIGH_LIMIT
  }

  function Shift(w: Which): int {
    if w.LowBand? then LOW_SHIFT else HIGH_SHIFT
  }

  /** The band between the new step size and block 4. */
  function Stepped(w: Which, m: Mode, codes: seq<nat>): P.BandState
    requires codes != []
  {
    var n := |codes| - 1;
    var st := BandAfter(w, m, codes[..n]);
    var nb := NextNb(st.nb, Increment(w, m, codes[n]), Limit(w));
    st.(nb := nb, det := Scale(nb, Shift(w)))
  }

  lemma CodeForm(w: Which, m: Mode, codes: seq<nat>)
    requires Runs(w, m) && codes != []
    ensures BandAfter(w, m, codes) == P.Block4(Stepped(w, m, codes), Difference(w, m, codes, |codes| - 1))
  {
    hide P.Block4, NextNb, Scale, CoarseIndex, HighIndex;
  }

  /** The step size of a run follows the leaky update of its increment. */
  lemma StepFollowsStandard(w: Which, m: Mode, codes: seq<nat>)
    requires Runs(w, m) && codes != []
    ensures var n, after := |codes| - 1, BandAfter(w, m, codes);
            && -128 < 128 * after.nb - Clamp(127 * BandAfter(w, m, codes[..n]).nb
                                             + 128 * Increment(w, m, codes[n]), 0, 128 * Limit(w)) <= 0
            && after.det == Scale(after.nb, Shift(w))
  {
    hide NextNb, Scale, Increment, BandAfter;
    var n := |codes| - 1;
    CodeForm(w, m, codes);
    Block4KeepsStep(Stepped(w, m, codes), Difference(w, m, codes, n));
    LeakyUpdate(BandAfter(w, m, codes[..n]).nb, Increment(w, m, codes[n]), Limit(w));
  }

  lemma StableRun(w: Which, m: Mode, codes: seq<nat>)
    ensures P.Stable(BandAfter(w, m, codes)) && 0 <= BandAfter(w, m, codes).det <= 16384
  {
    hide P.Stable, Scale;
    InitOk();
    DecoderInvariant(m, INIT, codes);
    LowStepRange(DecodeBands(m, INIT, codes).low.nb);
    HighStepRange(DecodeBands(m, INIT, codes).high.nb);
  }

  lemma DifferenceFits(w: Which, m: Mode, codes: seq<nat>, i: int)
    requires i < |codes|
    ensures Fits16(Difference(w, m, codes, i))
  {
    if i >= 0 {
      hide BandAfter, CoarseIndex, HighIndex;
      StableRun(w, m, codes[..i]);
      ScaledDifferenceFits(BandAfter(w, m, codes[..i]).det,
                           if w.LowBand? then Qm4(CoarseIndex(codes[i], m.bits)) else Qm2(HighIndex(codes[i], m.bits)));
    }
  }

  /** The coefficients of a run follow the formulas of the standard, over the partially reconstructed signal
      and the quantized differences of the run. */
  lemma CoefficientsFollowStandard(w: Which, m: Mode, codes: seq<nat>, k: nat)
    requires Runs(w, m) && codes != [] && k < 6
    ensures var n := |codes| - 1;
            var before, after := BandAfter(w, m, codes[..n]), BandAfter(w, m, codes);
            var p0, p1, p2 := Partial(w, m, codes, n), Partial(w, m, codes, n - 1), Partial(w, m, codes, n - 2);
            && -256 < 128 * after.a2 - P.IdealPole2(before.a1, before.a2, p0, p1, p2) <= 0
            && -256 < 256 * after.a1 - P.IdealPole1(before.a1, after.a2, p0, p1) <= 0
            && -256 < 256 * after.b[k] - P.IdealZero(before.b[k], Difference(w, m, codes, n - 1 - k),
                                                     Difference(w, m, codes, n)) <= 0
  {
    hide P.IdealPole1, P.IdealPole2, P.IdealZero, P.Uppol1, P.Uppol2, P.UpzeroTap, P.Filtep, P.ZeroSum,
      BandAfter, Difference, Partial, Reconstructed, NextNb, Scale;
    var n, dif := |codes| - 1, Difference(w, m, codes, |codes| - 1);
    var before, after := BandAfter(w, m, codes[..n]), BandAfter(w, m, codes);
    CodeForm(w, m, codes);
    AdaptMoves(w, m, codes);
    StableRun(w, m, codes[..n]);
    StableRun(w, m, codes);
    DecoderHoldsRecentPast(w, m, codes[..n], k);
    PastIsPast(w, m, codes, n, n - 1);
    PastIsPast(w, m, codes, n, n - 2);
    PastIsPast(w, m, codes, n, n - 1 - k);
    DifferenceFits(w, m, codes, n);
    P.SecondPoleFollowsStandard(before.a1, before.a2, after.p1, before.p1, before.p2);
    P.FirstPoleFollowsStandard(before.a1, before.a2, after.a2, after.p1, before.p1);
    P.ZerosFollowStandard(before.b[k], before.d[k], dif);
  }

  /** The quantized differences under the zero section, the last one first. */
  function RecentDifferences(w: Which, m: Mode, codes: seq<nat>): (d: seq<int>)
    ensures |d| == 6
  {
    seq(6, k requires 0 <= k < 6 => Difference(w, m, codes, |codes| - 1 - k))
  }

  /** The prediction of a run: each pole coefficient on its own reconstructed sample, the zero coefficients on
      the last six differences, and the limited sum of the two. */
  lemma PredictionFollowsStandard(w: Which, m: Mode, codes: seq<nat>)
    requires Runs(w, m) && codes != []
    ensures var n, st := |codes| - 1, BandAfter(w, m, codes);
            && -0x1_0000 < 0x8000 * st.sp - P.IdealPoles(st.a1, st.a2, Reconstructed(w, m, codes, n),
                                                         Reconstructed(w, m, codes, n - 1)) <= 0
            && -6 * 0x7fff <= 0x8000 * st.sz - Clamp(P.Dot(st.b, RecentDifferences(w, m, codes), 0),
                                                     -0x8000 * 0x8000, 0x7fff * 0x8000) <= 0
            && st.s == Sat(st.sp + st.sz)
  {
    hide P.IdealPoles, P.Uppol1, P.Uppol2, P.Upzero, P.Filtep, P.ZeroSum, P.Dot, BandAfter, Difference, Partial,
      Reconstructed, NextNb, Scale;
    var n, st := |codes| - 1, BandAfter(w, m, codes);
    CodeForm(w, m, codes);
    forall k: nat | k < 6
      ensures st.d[k] == Difference(w, m, codes, n - k)
    {
      DecoderHoldsRecentPast(w, m, codes, k);
    }
    assert st.d == RecentDifferences(w, m, codes);
    DecoderHoldsRecentPast(w, m, codes, 0);
    P.PolesFollowStandard(st.a1, st.a2, st.r1, st.r2);
    P.ZeroSumIsDot(st.b, st.d, 0);
  }

  // ---------- Two decoders that start differently ----------

  function Increments(w: Which, m: Mode, codes: seq<nat>): seq<int> {
    seq(|codes|, i requires 0 <= i < |codes| => Increment(w, m, codes[i]))
  }

  function NbOf(w: Which, bs: Bands): int {
    if w.LowBand? then bs.low.nb else bs.high.nb
  }

  lemma {:induction false} NbOfRun(w: Which, m: Mode, bs: Bands, codes: seq<nat>)
    requires Runs(w, m)
    ensures NbOf(w, DecodeBands(m, bs, codes)) == NbAfter(NbOf(w, bs), Increments(w, m, codes), Limit(w))
  {
    hide P.Block4, NextNb, Scale, CoarseIndex, HighIndex;
    if codes != [] {
      var n := |codes| - 1;
      NbOfRun(w, m, bs, codes[..n]);
      assert Increments(w, m, codes)[..n] == Increments(w, m, codes[..n]);
      var before := DecodeBands(m, bs, codes[..n]);
      KeepsNb(m, before, codes[n]);
    }
  }

  lemma KeepsNb(m: Mode, bs: Bands, code: nat)
    ensures DecodeStep(m, bs, code).low.nb == NextNb(bs.low.nb, Increment(LowBand, m, code), LOW_LIMIT)
    ensures !m.eightK ==>
              DecodeStep(m, bs, code).high.nb == NextNb(bs.high.nb, Increment(HighBand, m, code), HIGH_LIMIT)
  {
    hide P.Uppol1, P.Uppol2, P.Upzero, P.Filtep, P.ZeroSum, NextNb, Scale, CoarseIndex, HighIndex;
  }

  /** Two decoders with different log steps, fed the same codes, come together: after n codes their distance,
      up to 127 units, is down to (127/128)^n of what it was. */
  lemma StepsConverge(w: Which, m: Mode, bs: Bands, bs': Bands, codes: seq<nat>)
    requires Runs(w, m) && NbOf(w, bs) <= NbOf(w, bs')
    ensures var rest := NbOf(w, DecodeBands(m, bs', codes)) - NbOf(w, DecodeBands(m, bs, codes));
            && 0 <= rest
            && (rest <= 127 ||
                Power(128, |codes|) * (rest - 127) <= Power(127, |codes|) * (NbOf(w, bs') - NbOf(w, bs) - 127))
  {
    hide DecodeBands, NbAfter, Increment, NbOf;
    NbOfRun(w, m, bs, codes);
    NbOfRun(w, m, bs', codes);
    Converges(NbOf(w, bs), NbOf(w, bs'), Increments(w, m, codes), Limit(w));
  }
}
