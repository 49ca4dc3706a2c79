/** The transmit and receive QMF: the 24-entry shift buffer of the C code against a direct FIR filter
    over the whole signal. */
module Filterbank {
  import opened FixedPoint
  import opened Tables
  import opened Codec
  import P = Predictor

  type History = x: seq<int> | |x| == 24 witness SILENCE

  const SILENCE: seq<int> := [0, 0, 0, 0, 0, 0, 0, 0, 0, 0, 0, 0, 0, 0, 0, 0, 0, 0, 0, 0, 0, 0, 0, 0]

  /** The buffer moved down by two places, with two new values at its end. */
  function ShiftIn(x: History, a: int, b: int): History {
    x[2..] + [a, b]
  }

  function SumOdd(x: History, i: nat): int
    requires i <= 12
  {
    if i == 0 then 0 else SumOdd(x, i - 1) + x[2 * (i - 1)] * QmfCoeff(i - 1)
  }

  function SumEven(x: History, i: nat): int
    requires i <= 12
  {
    if i == 0 then 0 else SumEven(x, i - 1) + x[2 * (i - 1) + 1] * QmfCoeff(12 - i)
  }

  function Abs(x: int): int {
    if x < 0 then -x else x
  }

  /** Sum of the magnitudes of the first i coefficients, and of the last i. */
  function Gain(i: nat, reversed: bool): int
    requires i <= 12
  {
    if i == 0 then 0 else Gain(i - 1, reversed) + Abs(if reversed then QmfCoeff(12 - i) else QmfCoeff(i - 1))
  }

  lemma TotalGain()
    ensures Gain(12, false) == Gain(12, true) == 6482
  {
    assert Gain(6, false) == 1219 && Gain(6, true) == 5263;
  }

  lemma TermBound(x: int, c: int)
    requires Fits16(x)
    ensures -0x8000 * Abs(c) <= x * c <= 0x8000 * Abs(c)
  {
    MulMono(-0x8000, x, Abs(c));
    MulMono(x, 0x8000, Abs(c));
    assert c < 0 ==> x * c == -(x * Abs(c));
  }

  /** No partial sum over 16-bit history values leaves 32 bits: the bound grows with the gain so far. */
  lemma {:induction false} SumBounds(x: History, i: nat)
    requires i <= 12 && P.All16(x)
    ensures 0 <= Gain(i, false) <= 3876 * i && 0 <= Gain(i, true) <= 3876 * i
    ensures -0x8000 * Gain(i, false) <= SumOdd(x, i) <= 0x8000 * Gain(i, false)
    ensures -0x8000 * Gain(i, true) <= SumEven(x, i) <= 0x8000 * Gain(i, true)
  {
    hide QmfCoeff;
    if i > 0 {
      SumBounds(x, i - 1);
      TermBound(x[2 * (i - 1)], QmfCoeff(i - 1));
      TermBound(x[2 * (i - 1) + 1], QmfCoeff(12 - i));
    }
  }

  // ---------- Transmit ----------

  predicate UsesQmf(m: Mode) {
    !m.ituTestMode && !m.eightK
  }

  /** Input samples for one code. */
  function Stride(m: Mode): nat {
    if UsesQmf(m) then 2 else 1
  }

  predicate WholePairs(m: Mode, amp: seq<int>) {
    UsesQmf(m) ==> |amp| % 2 == 0
  }

  function HistoryAfter(m: Mode, x: History, amp: seq<int>): History
    requires WholePairs(m, amp)
  {
    if amp == [] || !UsesQmf(m) then x
    else
      var n := |amp| - 2;
      ShiftIn(HistoryAfter(m, x, amp[..n]), amp[n], amp[n + 1])
  }

  /** The sub-band samples of one code; `x` already holds the new samples. */
  function PairOf(m: Mode, x: History, newest: int): Pair {
    if m.ituTestMode then Pair(newest / 2, newest / 2)
    else if m.eightK then Pair(newest / 2, 0)
    else Pair((SumEven(x, 12) + SumOdd(x, 12)) / 0x4000, (SumEven(x, 12) - SumOdd(x, 12)) / 0x4000)
  }

  function Pairs(m: Mode, x: History, amp: seq<int>): (xs: seq<Pair>)
    requires WholePairs(m, amp)
    ensures |xs| * Stride(m) == |amp|
  {
    if amp == [] then []
    else
      var n := |amp| - Stride(m);
      Pairs(m, x, amp[..n]) + [PairOf(m, HistoryAfter(m, x, amp), amp[|amp| - 1])]
  }

  // ---------- Receive ----------

  function OutputHistory(m: Mode, x: History, xs: seq<Pair>): History {
    if xs == [] || !UsesQmf(m) then x
    else
      var n := |xs| - 1;
      ShiftIn(OutputHistory(m, x, xs[..n]), xs[n].low + xs[n].high, xs[n].low - xs[n].high)
  }

  /** The samples made from one pair; `x` already holds the pair. */
  function SamplesOf(m: Mode, x: History, p: Pair): seq<int16> {
    if m.ituTestMode then [ToInt16(p.low * 2), ToInt16(p.high * 2)]
    else if m.eightK then [ToInt16(p.low * 2)]
    else [ToInt16(SumEven(x, 12) / 0x800), ToInt16(SumOdd(x, 12) / 0x800)]
  }

  function Samples(m: Mode, x: History, xs: seq<Pair>): seq<int16> {
    if xs == [] then []
    else
      var n := |xs| - 1;
      Samples(m, x, xs[..n]) + SamplesOf(m, OutputHistory(m, x, xs), xs[n])
  }

  // ---------- The buffer is the recent past, and the sums are one FIR filter ----------

  /** The signal, silent before its start. */
  function At(amp: seq<int>, k: int): int
    requires k < |amp|
  {
    if k < 0 then 0 else amp[k]
  }

  /** The 24-tap impulse response behind the 12 stored coefficients. */
  function Tap(j: int): int
    requires 0 <= j < 24
  {
    if j % 2 == 0 then QmfCoeff(j / 2) else QmfCoeff(11 - j / 2)
  }

  /** Linear phase: the impulse response is its own mirror image. */
  lemma TapSymmetric(j: int)
    requires 0 <= j < 24
    ensures Tap(j) == Tap(23 - j)
  {
    if j % 2 == 0 {
      assert (23 - j) % 2 == 1 && (23 - j) / 2 == 11 - j / 2;
    } else {
      assert (23 - j) % 2 == 0 && (23 - j) / 2 == 11 - j / 2;
    }
  }

  /** Taps j to 23 of the filter at time t; the mirrored filter negates every odd tap. */
  function Fir(amp: seq<int>, t: int, mirrored: bool, j: nat): int
    requires t < |amp| && j <= 24
    decreases 24 - j
  {
    if j == 24 then 0
    else
      var term := At(amp, t - j) * Tap(j);
      (if mirrored && j % 2 == 1 then -term else term) + Fir(amp, t, mirrored, j + 1)
  }

  lemma ShiftInAt(x: History, a: int, b: int, k: nat)
    requires k < 24
    ensures ShiftIn(x, a, b)[k] == if k < 22 then x[k + 2] else if k == 22 then a else b
  {}

  /** The shift buffer always holds the last 24 input samples, zeros before the start of the signal. */
  lemma {:induction false} HistoryIsRecentPast(m: Mode, amp: seq<int>, k: nat)
    requires UsesQmf(m) && WholePairs(m, amp) && k < 24
    ensures HistoryAfter(m, SILENCE, amp)[k] == At(amp, |amp| - 24 + k)
  {
    hide ShiftIn;
    if amp != [] {
      var n := |amp| - 2;
      ShiftInAt(HistoryAfter(m, SILENCE, amp[..n]), amp[n], amp[n + 1], k);
      if k < 22 {
        HistoryIsRecentPast(m, amp[..n], k + 2);
      }
    }
  }

  lemma SumStep(x: History, i: nat)
    requires 1 <= i <= 12
    ensures SumOdd(x, i) == SumOdd(x, i - 1) + x[2 * i - 2] * QmfCoeff(i - 1)
    ensures SumEven(x, i) == SumEven(x, i - 1) + x[2 * i - 1] * QmfCoeff(12 - i)
  {}

  lemma NoTaps(x: History, amp: seq<int>, mirrored: bool)
    requires amp != []
    ensures SumOdd(x, 0) == SumEven(x, 0) == Fir(amp, |amp| - 1, mirrored, 24) == 0
  {}

  lemma {:induction false} SumsAreFir(m: Mode, amp: seq<int>, i: nat)
    requires UsesQmf(m) && WholePairs(m, amp) && amp != [] && i <= 12
    ensures var x := HistoryAfter(m, SILENCE, amp);
            && SumEven(x, i) + SumOdd(x, i) == Fir(amp, |amp| - 1, false, 24 - 2 * i)
            && SumEven(x, i) - SumOdd(x, i) == Fir(amp, |amp| - 1, true, 24 - 2 * i)
  {
    hide HistoryAfter, QmfCoeff, SumEven, SumOdd, Fir, At;
    var x := HistoryAfter(m, SILENCE, amp);
    if i == 0 {
      NoTaps(x, amp, false);
      NoTaps(x, amp, true);
    } else {
      SumsAreFir(m, amp, i - 1);
      HistoryIsRecentPast(m, amp, 2 * i - 2);
      HistoryIsRecentPast(m, amp, 2 * i - 1);
      SumStep(x, i);
      TwoTaps(amp, false, i);
      TwoTaps(amp, true, i);
    }
  }

  lemma TwoTaps(amp: seq<int>, mirrored: bool, i: nat)
    requires 1 <= i <= 12 && amp != []
    ensures var t, j := |amp| - 1, 24 - 2 * i;
            var even, odd := At(amp, t - j) * QmfCoeff(12 - i), At(amp, t - j - 1) * QmfCoeff(i - 1);
            Fir(amp, t, mirrored, j) == even + (if mirrored then -odd else odd) + Fir(amp, t, mirrored, j + 2)
  {
    hide QmfCoeff;
    var j := 24 - 2 * i;
    assert j / 2 == 12 - i && (j + 1) / 2 == 12 - i && j % 2 == 0 && (j + 1) % 2 == 1;
    assert Tap(j) == QmfCoeff(12 - i) && Tap(j + 1) == QmfCoeff(i - 1);
  }

  lemma LastPair(m: Mode, amp: seq<int>)
    requires UsesQmf(m) && WholePairs(m, amp) && amp != []
    ensures var n, x := |amp| - 2, HistoryAfter(m, SILENCE, amp);
            && |Pairs(m, SILENCE, amp[..n])| == n / 2
            && Pairs(m, SILENCE, amp) == Pairs(m, SILENCE, amp[..n])
               + [Pair((SumEven(x, 12) + SumOdd(x, 12)) / 0x4000, (SumEven(x, 12) - SumOdd(x, 12)) / 0x4000)]
  {
    hide SumEven, SumOdd, HistoryAfter;
  }

  /** Pair k of a wideband signal is the two half-band filters over the whole signal so far, taken at
      every second sample. */
  lemma {:induction false} PairsAreFir(m: Mode, amp: seq<int>, k: nat)
    requires UsesQmf(m) && WholePairs(m, amp) && 2 * k < |amp|
    ensures Pairs(m, SILENCE, amp)[k]
            == Pair(Fir(amp, 2 * k + 1, false, 0) / 0x4000, Fir(amp, 2 * k + 1, true, 0) / 0x4000)
  {
    hide SumEven, SumOdd, Fir, HistoryAfter, Pairs;
    var n := |amp| - 2;
    LastPair(m, amp);
    if 2 * k == n {
      SumsAreFir(m, amp, 12);
    } else {
      PairsAreFir(m, amp[..n], k);
      FirCausal(amp, n, 2 * k + 1, false, 0);
      FirCausal(amp, n, 2 * k + 1, true, 0);
    }
  }

  /** The filter does not look ahead. */
  lemma {:induction false} FirCausal(amp: seq<int>, n: nat, t: int, mirrored: bool, j: nat)
    requires t < n <= |amp| && j <= 24
    ensures Fir(amp[..n], t, mirrored, j) == Fir(amp, t, mirrored, j)
    decreases 24 - j
  {
    if j < 24 {
      FirCausal(amp, n, t, mirrored, j + 1);
    }
  }
}
