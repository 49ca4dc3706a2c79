/** The receive QMF as one FIR filter over the decoded pairs, and what the two filter banks do together: they
    give the signal back, 22 samples later. */
module Reconstruction {
  import opened FixedPoint
  import opened Tables
  import opened Quantizer
  import opened Codec
  import opened Filterbank

  // ---------- Receive ----------

  /** What output phase r takes from pair i: the difference of the bands, or their sum. Silent before the
      start. */
  function PairAt(xs: seq<Pair>, i: int, r: nat): int
    requires i < |xs|
  {
    if i < 0 then 0 else if r == 0 then xs[i].low - xs[i].high else xs[i].low + xs[i].high
  }

  /** Taps 2t + r, 2t + 2 + r, ... of the filter, over pair k - t and the ones before it. */
  function Receive(xs: seq<Pair>, k: int, r: nat, t: nat): int
    requires k < |xs| && r < 2 && t <= 12
    decreases 12 - t
  {
    if t == 12 then 0 else Tap(2 * t + r) * PairAt(xs, k - t, r) + Receive(xs, k, r, t + 1)
  }

  lemma ReceiveStep(xs: seq<Pair>, k: int, r: nat, t: nat)
    requires k < |xs| && r < 2 && t < 12
    ensures Receive(xs, k, r, t) == Coeff(r, t) * PairAt(xs, k - t, r) + Receive(xs, k, r, t + 1)
  {
    TapPhase(r, t);
  }

  /** The taps of one phase, as the source stores them. */
  function Coeff(r: nat, t: nat): int
    requires r < 2 && t < 12
  {
    if r == 0 then QmfCoeff(t) else QmfCoeff(11 - t)
  }

  lemma TapPhase(r: nat, t: nat)
    requires r < 2 && t < 12
    ensures Tap(2 * t + r) == Coeff(r, t)
  {
    assert (2 * t + r) / 2 == t && (2 * t + r) % 2 == r;
  }

  lemma StoredTaps(i: nat)
    requires 1 <= i <= 12
    ensures Coeff(0, 12 - i) == QmfCoeff(12 - i) && Coeff(1, 12 - i) == QmfCoeff(i - 1)
  {}

  /** The output history holds sums and differences of the last twelve pairs. */
  lemma {:induction false} OutputIsRecentPast(m: Mode, xs: seq<Pair>, i: nat)
    requires UsesQmf(m) && i < 12
    ensures OutputHistory(m, SILENCE, xs)[2 * i] == PairAt(xs, |xs| - 12 + i, 1)
    ensures OutputHistory(m, SILENCE, xs)[2 * i + 1] == PairAt(xs, |xs| - 12 + i, 0)
  {
    hide ShiftIn;
    if xs != [] {
      var n := |xs| - 1;
      var before := OutputHistory(m, SILENCE, xs[..n]);
      ShiftInAt(before, xs[n].low + xs[n].high, xs[n].low - xs[n].high, 2 * i);
      ShiftInAt(before, xs[n].low + xs[n].high, xs[n].low - xs[n].high, 2 * i + 1);
      if i < 11 {
        OutputIsRecentPast(m, xs[..n], i + 1);
      }
    }
  }

  lemma {:induction false} ReceiveSums(m: Mode, xs: seq<Pair>, i: nat)
    requires UsesQmf(m) && i <= 12
    ensures SumEven(OutputHistory(m, SILENCE, xs), i) == Receive(xs, |xs| - 1, 0, 12 - i)
    ensures SumOdd(OutputHistory(m, SILENCE, xs), i) == Receive(xs, |xs| - 1, 1, 12 - i)
  {
    if i > 0 {
      ReceiveSums(m, xs, i - 1);
      LastTerm(m, xs, i);
    }
  }

  /** Term i of the two tap sums. */
  lemma LastTerm(m: Mode, xs: seq<Pair>, i: nat)
    requires UsesQmf(m) && 1 <= i <= 12
    ensures var x, k := OutputHistory(m, SILENCE, xs), |xs| - 1;
            && SumEven(x, i) - SumEven(x, i - 1) == Receive(xs, k, 0, 12 - i) - Receive(xs, k, 0, 13 - i)
            && SumOdd(x, i) - SumOdd(x, i - 1) == Receive(xs, k, 1, 12 - i) - Receive(xs, k, 1, 13 - i)
  {
    hide OutputHistory, QmfCoeff, Receive, SumEven, SumOdd, PairAt, Coeff;
    var x, k := OutputHistory(m, SILENCE, xs), |xs| - 1;
    OutputIsRecentPast(m, xs, i - 1);
    SumStep(x, i);
    ReceiveStep(xs, k, 0, 12 - i);
    ReceiveStep(xs, k, 1, 12 - i);
    StoredTaps(i);
    assert x[2 * i - 1] == PairAt(xs, k - (12 - i), 0) && x[2 * i - 2] == PairAt(xs, k - (12 - i), 1);
  }

  lemma {:induction false} ReceiveCausal(xs: seq<Pair>, n: nat, k: int, r: nat, t: nat)
    requires k < n <= |xs| && r < 2 && t <= 12
    ensures Receive(xs[..n], k, r, t) == Receive(xs, k, r, t)
    decreases 12 - t
  {
    hide Tap;
    if t < 12 {
      ReceiveCausal(xs, n, k, r, t + 1);
    }
  }

  /** Sample 2k + r of a wideband decoder is phase r of the filter over the pairs up to pair k. */
  lemma {:induction false} SamplesAreFir(m: Mode, xs: seq<Pair>, k: nat, r: nat)
    requires UsesQmf(m) && k < |xs| && r < 2
    ensures |Samples(m, SILENCE, xs)| == 2 * |xs|
    ensures Samples(m, SILENCE, xs)[2 * k + r] == ToInt16(Receive(xs, k, r, 0) / 0x800)
  {
    hide SumEven, SumOdd, Receive, OutputHistory, ToInt16;
    var n := |xs| - 1;
    if n > 0 {
      SamplesAreFir(m, xs[..n], if k < n then k else 0, r);
    } else {
      assert xs[..n] == [];
    }
    if k < n {
      ReceiveCausal(xs, n, k, r, 0);
    } else {
      ReceiveSums(m, xs, 12);
    }
  }

  // ---------- Transmit ----------

  /** Every second tap of the transmit filter at time n: taps 2s + r, 2s + 2 + r, ... */
  function Phase(amp: seq<int>, n: int, r: nat, s: nat): int
    requires n < |amp| && r < 2 && s <= 12
    decreases 12 - s
  {
    if s == 12 then 0 else Tap(2 * s + r) * At(amp, n - 2 * s) + Phase(amp, n, r, s + 1)
  }

  lemma {:induction false} FirPhases(amp: seq<int>, n: nat, mirrored: bool, s: nat)
    requires n < |amp| && s <= 12
    ensures Fir(amp, n, mirrored, 2 * s)
            == Phase(amp, n, 0, s) + (if mirrored then -Phase(amp, n - 1, 1, s) else Phase(amp, n - 1, 1, s))
    decreases 12 - s
  {
    hide Tap, At;
    if s < 12 {
      FirPhases(amp, n, mirrored, s + 1);
      assert (2 * s + 1) % 2 == 1 && (2 * s) % 2 == 0;
    }
  }

  lemma {:induction false} SilentPhase(amp: seq<int>, n: int, r: nat, s: nat)
    requires n < 0 && r < 2 && s <= 12
    ensures Phase(amp, n, r, s) == 0
    decreases 12 - s
  {
    if s < 12 {
      SilentPhase(amp, n, r, s + 1);
    }
  }

  /** The sum of the two bands of a pair is the even phase of the transmit filter, their difference the odd
      one: the 16384 is dropped with less than two units of rounding. */
  lemma PairIsPhase(m: Mode, amp: seq<int>, k: int, r: nat)
    requires UsesQmf(m) && WholePairs(m, amp) && 2 * k < |amp| && r < 2
    ensures k < |Pairs(m, SILENCE, amp)|
    ensures Within(0x4000 * PairAt(Pairs(m, SILENCE, amp), k, r), 2 * Phase(amp, 2 * k + r, 1 - r, 0), 0x8000)
  {
    hide Fir, Phase;
    if k < 0 {
      SilentPhase(amp, 2 * k + r, 1 - r, 0);
    } else {
      PairsAreFir(m, amp, k);
      FirPhases(amp, 2 * k + 1, false, 0);
      FirPhases(amp, 2 * k + 1, true, 0);
    }
  }

  // ---------- Both ----------

  function PhaseGain(r: nat, t: nat): int
    requires r < 2 && t <= 12
    decreases 12 - t
  {
    if t == 12 then 0 else Abs(Coeff(r, t)) + PhaseGain(r, t + 1)
  }

  const TOTAL_GAIN := 6482

  lemma PhaseGains(r: nat)
    requires r < 2
    ensures PhaseGain(r, 0) == TOTAL_GAIN
  {
    assert PhaseGain(0, 6) == 5263 && PhaseGain(1, 6) == 1219;
  }

  /** Received without a codec in between, a pair stands for its phase of the transmitted signal. */
  lemma {:induction false} ReceiveNearPhases(m: Mode, amp: seq<int>, k: int, r: nat, t: nat)
    requires UsesQmf(m) && WholePairs(m, amp) && 2 * k < |amp| && r < 2 && t <= 12
    ensures k < |Pairs(m, SILENCE, amp)|
    ensures Within(0x4000 * Receive(Pairs(m, SILENCE, amp), k, r, t), 2 * Twice(amp, 2 * k + r, r, t),
                   0x8000 * PhaseGain(r, t))
    decreases 12 - t
  {
    hide Coeff, PairAt, Phase, Pairs;
    PairIsPhase(m, amp, k, r);
    if t < 12 {
      hide Receive, Twice, PhaseGain, UsesQmf, WholePairs;
      ReceiveNearPhases(m, amp, k, r, t + 1);
      PairIsPhase(m, amp, k - t, r);
      NearStep(Pairs(m, SILENCE, amp), amp, k, r, t);
    }
  }

  lemma NearStep(xs: seq<Pair>, amp: seq<int>, k: int, r: nat, t: nat)
    requires r < 2 && t < 12 && k < |xs| && 2 * k + r < |amp|
    requires Within(0x4000 * PairAt(xs, k - t, r), 2 * Phase(amp, 2 * (k - t) + r, 1 - r, 0), 0x8000)
    requires Within(0x4000 * Receive(xs, k, r, t + 1), 2 * Twice(amp, 2 * k + r, r, t + 1),
                    0x8000 * PhaseGain(r, t + 1))
    ensures Within(0x4000 * Receive(xs, k, r, t), 2 * Twice(amp, 2 * k + r, r, t), 0x8000 * PhaseGain(r, t))
  {
    hide *;
    var c, pair, phase := Coeff(r, t), PairAt(xs, k - t, r), Phase(amp, 2 * k + r - 2 * t, 1 - r, 0);
    assert 2 * (k - t) + r == 2 * k + r - 2 * t;
    ReceiveStep(xs, k, r, t);
    TwiceStep(amp, 2 * k + r, r, t);
    GainStep(r, t);
    Scaled(c, 0x4000 * pair, 2 * phase, 0x8000);
    Combined(c, pair, phase, Receive(xs, k, r, t + 1), Twice(amp, 2 * k + r, r, t + 1), PhaseGain(r, t + 1));
  }

  lemma Combined(c: int, pair: int, phase: int, received: int, twice: int, gain: int)
    requires Within(c * (0x4000 * pair), c * (2 * phase), 0x8000 * Abs(c))
    requires Within(0x4000 * received, 2 * twice, 0x8000 * gain)
    ensures Within(0x4000 * (c * pair + received), 2 * (c * phase + twice), 0x8000 * (Abs(c) + gain))
  {
    assert c * (0x4000 * pair) == 0x4000 * (c * pair) && c * (2 * phase) == 2 * (c * phase);
  }

  lemma Scaled(c: int, x: int, y: int, tolerance: int)
    requires Within(x, y, tolerance)
    ensures Within(c * x, c * y, tolerance * Abs(c))
  {
    assert c * x - c * y == c * (x - y);
    MulMono(x - y, tolerance, Abs(c));
    MulMono(-tolerance, x - y, Abs(c));
    assert c < 0 ==> c * (x - y) == -((x - y) * Abs(c));
  }

  lemma GainStep(r: nat, t: nat)
    requires r < 2 && t < 12
    ensures PhaseGain(r, t) == Abs(Coeff(r, t)) + PhaseGain(r, t + 1)
  {}

  /** Phase r of the receive filter over the other phase of the transmit filter, from time n on. */
  function Twice(amp: seq<int>, n: int, r: nat, t: nat): int
    requires n < |amp| && r < 2 && t <= 12
    decreases 12 - t
  {
    if t == 12 then 0 else Coeff(r, t) * Phase(amp, n - 2 * t, 1 - r, 0) + Twice(amp, n, r, t + 1)
  }

  lemma TwiceStep(amp: seq<int>, n: int, r: nat, t: nat)
    requires n < |amp| && r < 2 && t < 12
    ensures Twice(amp, n, r, t) == Coeff(r, t) * Phase(amp, n - 2 * t, 1 - r, 0) + Twice(amp, n, r, t + 1)
  {}

  // ---------- The two filters as one ----------

  /** The other phase, zero outside its twelve taps. */
  function Partner(r: nat, s: int): int
    requires r < 2
  {
    if 0 <= s < 12 then Coeff(1 - r, s) else 0
  }

  /** Coefficient m of the product of the two phases, over the taps from t on. */
  function Product(r: nat, m: int, t: nat): int
    requires r < 2 && t <= 12
    decreases 12 - t
  {
    if t == 12 then 0 else Coeff(r, t) * Partner(r, m - t) + Product(r, m, t + 1)
  }

  /** The signal under those coefficients, from coefficient m on. */
  function Joint(amp: seq<int>, n: int, r: nat, t: nat, m: nat): int
    requires n < |amp| && r < 2 && t <= 12 && m <= 23
    decreases 23 - m
  {
    if m == 23 then 0 else Product(r, m, t) * At(amp, n - 2 * m) + Joint(amp, n, r, t, m + 1)
  }

  /** The signal under the partner phase, moved by t places. */
  function Moved(amp: seq<int>, n: int, r: nat, t: nat, m: nat): int
    requires n < |amp| && r < 2 && t <= 12 && m <= 23
    decreases 23 - m
  {
    if m == 23 then 0 else Partner(r, m - t) * At(amp, n - 2 * m) + Moved(amp, n, r, t, m + 1)
  }

  lemma PhaseStep(amp: seq<int>, n: int, r: nat, s: nat)
    requires n < |amp| && r < 2 && s < 12
    ensures Phase(amp, n, r, s) == Coeff(r, s) * At(amp, n - 2 * s) + Phase(amp, n, r, s + 1)
    ensures Phase(amp, n, r, 12) == 0
  {
    TapPhase(r, s);
  }

  lemma {:induction false} MovedIsPhase(amp: seq<int>, n: int, r: nat, t: nat, m: nat)
    requires n < |amp| && r < 2 && t < 12 && m <= 23
    ensures Moved(amp, n, r, t, m)
            == Phase(amp, n - 2 * t, 1 - r, if m <= t then 0 else if m <= t + 12 then m - t else 12)
    decreases 23 - m
  {
    hide Coeff, At, Phase;
    if m == 23 {
      PhaseStep(amp, n - 2 * t, 1 - r, 11);
    } else {
      MovedIsPhase(amp, n, r, t, m + 1);
      if t <= m < t + 12 {
        PhaseStep(amp, n - 2 * t, 1 - r, m - t);
        assert n - 2 * t - 2 * (m - t) == n - 2 * m;
      }
    }
  }

  lemma {:induction false} JointStep(amp: seq<int>, n: int, r: nat, t: nat, m: nat)
    requires n < |amp| && r < 2 && t < 12 && m <= 23
    ensures Joint(amp, n, r, t, m) == Coeff(r, t) * Moved(amp, n, r, t, m) + Joint(amp, n, r, t + 1, m)
    decreases 23 - m
  {
    hide Coeff, At, Partner;
    if m < 23 {
      JointStep(amp, n, r, t, m + 1);
      Distribute(Coeff(r, t), Partner(r, m - t), Product(r, m, t + 1), At(amp, n - 2 * m),
                 Moved(amp, n, r, t, m + 1));
    }
  }

  lemma Distribute(c: int, p: int, q: int, x: int, rest: int)
    ensures (c * p + q) * x == c * (p * x) + q * x
    ensures c * (p * x + rest) == c * (p * x) + c * rest
  {}

  lemma {:induction false} JointNothing(amp: seq<int>, n: int, r: nat, m: nat)
    requires n < |amp| && r < 2 && m <= 23
    ensures Joint(amp, n, r, 12, m) == 0
    decreases 23 - m
  {
    if m < 23 {
      JointNothing(amp, n, r, m + 1);
    }
  }

  lemma {:induction false} TwiceIsJoint(amp: seq<int>, n: int, r: nat, t: nat)
    requires n < |amp| && r < 2 && t <= 12
    ensures Twice(amp, n, r, t) == Joint(amp, n, r, t, 0)
    decreases 12 - t
  {
    hide Coeff, Phase, Joint, Moved;
    if t == 12 {
      JointNothing(amp, n, r, 0);
    } else {
      TwiceIsJoint(amp, n, r, t + 1);
      JointStep(amp, n, r, t, 0);
      MovedIsPhase(amp, n, r, t, 0);
    }
  }

  // ---------- The half-band property ----------

  /** The even-lag autocorrelation of one phase of the impulse response, by lag in steps of two taps. */
  const CORRELATION: seq<int> := [16779510, 2952, -2325, -141, -432, 2668, -1756, -4263, 3086, -1183, 280, -33]

  function Head(m: int, t: nat): int
    requires t <= 12
  {
    if t == 0 then 0 else Head(m, t - 1) + Coeff(0, t - 1) * Partner(0, m - (t - 1))
  }

  lemma {:induction false} HeadAndTail(m: int, t: nat)
    requires t <= 12
    ensures Product(0, m, 0) == Head(m, t) + Product(0, m, t)
  {
    hide Coeff, Partner;
    if t > 0 {
      HeadAndTail(m, t - 1);
    }
  }

  /** The two phases are each other's mirror image, so one product is the other, read backwards. */
  lemma {:induction false} MirrorProduct(m: int, t: nat)
    requires t <= 12
    ensures Product(1, m, t) == Head(22 - m, 12 - t)
    decreases 12 - t
  {
    hide QmfCoeff;
    if t < 12 {
      MirrorProduct(m, t + 1);
      var c, p := Coeff(1, t), Partner(1, m - t);
      assert c == Coeff(0, 11 - t) && p == Partner(0, 22 - m - (11 - t));
      assert Head(22 - m, 12 - t) == Head(22 - m, 11 - t) + c * p;
    }
  }

  lemma Lag0()
    ensures Product(0, 11, 0) == 16779510
  {}

  lemma Lag1()
    ensures Product(0, 10, 0) == Product(0, 12, 0) == 2952
  {}

  lemma Lag2()
    ensures Product(0, 9, 0) == Product(0, 13, 0) == -2325
  {}

  lemma Lag3()
    ensures Product(0, 8, 0) == Product(0, 14, 0) == -141
  {}

  lemma Lag4()
    ensures Product(0, 7, 0) == Product(0, 15, 0) == -432
  {}

  lemma Lag5()
    ensures Product(0, 6, 0) == Product(0, 16, 0) == 2668
  {}

  lemma Lag6()
    ensures Product(0, 5, 0) == Product(0, 17, 0) == -1756
  {}

  lemma Lag7()
    ensures Product(0, 4, 0) == Product(0, 18, 0) == -4263
  {}

  lemma Lag8()
    ensures Product(0, 3, 0) == Product(0, 19, 0) == 3086
  {}

  lemma Lag9()
    ensures Product(0, 2, 0) == Product(0, 20, 0) == -1183
  {}

  lemma Lag10()
    ensures Product(0, 1, 0) == Product(0, 21, 0) == 280
  {}

  lemma Lag11()
    ensures Product(0, 0, 0) == Product(0, 22, 0) == -33
  {}

  /** Products of the two phases, in the middle 2^24 up to 2294, elsewhere next to nothing. */
  lemma Products(r: nat, m: nat)
    requires r < 2 && m < 23
    ensures Product(r, m, 0) == CORRELATION[if m <= 11 then 11 - m else m - 11]
  {
    hide Product;
    Lag0(); Lag1(); Lag2(); Lag3(); Lag4(); Lag5(); Lag6(); Lag7(); Lag8(); Lag9(); Lag10(); Lag11();
    if r == 1 {
      MirrorProduct(m, 0);
      HeadAndTail(22 - m, 12);
      NoProduct(22 - m);
    }
  }

  lemma NoProduct(m: int)
    ensures Product(0, m, 12) == 0
  {}

  /** How far the joint filter is from a delay by 22 samples, over the coefficients from m on. */
  function Leak(m: nat): int
    requires m <= 23
    decreases 23 - m
  {
    if m == 23 then 0
    else Abs(LeakAt(m)) + Leak(m + 1)
  }

  const TOTAL_LEAK := 40532

  lemma TotalLeak()
    ensures Leak(0) == TOTAL_LEAK
  {
    assert Leak(11) == 21413;
  }

  predicate PeakAt(amp: seq<int>, peak: int) {
    forall i :: 0 <= i < |amp| ==> -peak <= amp[i] <= peak
  }

  /** What coefficient m differs by from that of the delay. */
  function LeakAt(m: nat): int
    requires m < 23
  {
    if m == 11 then 2294 else CORRELATION[if m < 11 then 11 - m else m - 11]
  }

  lemma {:induction false} JointNearDelay(amp: seq<int>, n: int, r: nat, m: nat, peak: int)
    requires n < |amp| && r < 2 && m <= 23 && peak >= 0 && PeakAt(amp, peak)
    ensures Within(Joint(amp, n, r, 0, m), if m <= 11 then 0x100_0000 * At(amp, n - 22) else 0, Leak(m) * peak)
    decreases 23 - m
  {
    hide Product, At, LeakAt;
    if m < 23 {
      JointNearDelay(amp, n, r, m + 1, peak);
      hide Joint, Leak;
      JointTerm(amp, n, r, m);
      assert n - 2 * 11 == n - 22;
      InPeak(amp, n - 2 * m, peak);
      Scaled(LeakAt(m), At(amp, n - 2 * m), 0, peak);
      LeakStep(m, peak);
    }
  }

  lemma InPeak(amp: seq<int>, i: int, peak: int)
    requires i < |amp| && peak >= 0 && PeakAt(amp, peak)
    ensures Within(At(amp, i), 0, peak)
  {}

  lemma JointTerm(amp: seq<int>, n: int, r: nat, m: nat)
    requires n < |amp| && r < 2 && m < 23
    ensures var x := At(amp, n - 2 * m);
            Joint(amp, n, r, 0, m)
            == (if m == 11 then 0x100_0000 * x else 0) + LeakAt(m) * x + Joint(amp, n, r, 0, m + 1)
  {
    hide Product, At;
    Products(r, m);
  }

  lemma LeakStep(m: nat, peak: int)
    requires m < 23
    ensures Leak(m) * peak == peak * Abs(LeakAt(m)) + Leak(m + 1) * peak
  {
    hide Leak, LeakAt, Abs;
    LeakForm(m);
    TimesSum(Abs(LeakAt(m)), Leak(m + 1), peak);
  }

  lemma TimesSum(a: int, b: int, x: int)
    ensures (a + b) * x == x * a + b * x
  {}

  lemma LeakForm(m: nat)
    requires m < 23
    ensures Leak(m) == Abs(LeakAt(m)) + Leak(m + 1)
  {
    hide LeakAt, Abs;
  }

  // ---------- The filter banks give the signal back ----------

  /** How far a sample can be from the input 22 samples earlier, for a signal that stays within a peak. */
  function QmfTolerance(peak: nat): nat {
    (0x8000 * TOTAL_GAIN + 2 * TOTAL_LEAK * peak) / 0x200_0000 + 1
  }

  /** Over the whole 16-bit range that is 0.3 percent. */
  lemma QmfToleranceSmall()
    ensures QmfTolerance(0) == 7 && QmfTolerance(0x8000) == 86
  {}

  /** Transmit and receive QMF with nothing in between delay every signal by 22 samples and change it by no
      more than the tolerance. */
  lemma QmfPairDelays(m: Mode, amp: seq<int>, peak: nat, k: nat, r: nat)
    requires UsesQmf(m) && WholePairs(m, amp) && 2 * k < |amp| && r < 2 && PeakAt(amp, peak)
    ensures k < |Pairs(m, SILENCE, amp)|
    ensures Within(Receive(Pairs(m, SILENCE, amp), k, r, 0) / 0x800, At(amp, 2 * k + r - 22), QmfTolerance(peak))
  {
    hide Receive, Twice, Joint, Leak, PhaseGain, Pairs, At;
    ReceiveNearPhases(m, amp, k, r, 0);
    PhaseGains(r);
    TwiceIsJoint(amp, 2 * k + r, r, 0);
    JointNearDelay(amp, 2 * k + r, r, 0, peak);
    TotalLeak();
  }

  /** The twelve pairs up to pair k agree, up to a in the low and b in the high band. */
  predicate PairsClose(xs: seq<Pair>, ys: seq<Pair>, k: int, a: int, b: int)
    requires k < |xs| == |ys|
  {
    forall i :: 0 <= i <= k && k - 12 < i ==> Within(xs[i].low, ys[i].low, a) && Within(xs[i].high, ys[i].high, b)
  }

  lemma PairClose(xs: seq<Pair>, ys: seq<Pair>, k: int, r: nat, t: nat, a: int, b: int)
    requires k < |xs| == |ys| && r < 2 && t < 12 && a >= 0 && b >= 0 && PairsClose(xs, ys, k, a, b)
    ensures Within(PairAt(xs, k - t, r), PairAt(ys, k - t, r), a + b)
  {}

  /** Then the samples made of them are off by no more than the gain of the filter allows. */
  lemma {:induction false} ReceiveClose(xs: seq<Pair>, ys: seq<Pair>, k: int, r: nat, t: nat, a: int, b: int)
    requires k < |xs| == |ys| && r < 2 && t <= 12 && a >= 0 && b >= 0 && PairsClose(xs, ys, k, a, b)
    ensures Within(Receive(xs, k, r, t), Receive(ys, k, r, t), (a + b) * PhaseGain(r, t))
    decreases 12 - t
  {
    hide Coeff, Abs, PairsClose, PairAt, Tap;
    if t < 12 {
      ReceiveClose(xs, ys, k, r, t + 1, a, b);
      hide Receive, PhaseGain;
      PairClose(xs, ys, k, r, t, a, b);
      ReceiveStep(xs, k, r, t);
      ReceiveStep(ys, k, r, t);
      GainStep(r, t);
      Scaled(Coeff(r, t), PairAt(xs, k - t, r), PairAt(ys, k - t, r), a + b);
      TimesSum(Abs(Coeff(r, t)), PhaseGain(r, t + 1), a + b);
      assert PhaseGain(r, t + 1) * (a + b) == (a + b) * PhaseGain(r, t + 1);
      assert (a + b) * PhaseGain(r, t) == PhaseGain(r, t) * (a + b);
    }
  }
}
