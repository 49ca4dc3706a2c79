/** 16 kHz sound through the whole codec: both filter banks, both bands, any packing and any calls. */
module Wideband {
  import opened FixedPoint
  import opened Quantizer
  import opened Codec
  import opened Lockstep
  import opened Filterbank
  import opened ErrorBound
  import opened BitStream
  import opened Session
  import opened Reconstruction
  import P = Predictor

  /** Pair i is one the encoder can follow: it fits the LIMIT of the decoder, it falls into bounded cells, and
      these are no wider than a in the low and b in the high band. */
  predicate Tracked(e: Mode, xs: seq<Pair>, i: nat, a: int, b: int)
    requires i < |xs|
  {
    var bs, x := EncodeBands(e, INIT, xs[..i]), xs[i];
    && -16384 <= x.low <= 16383 && -16384 <= x.high <= 16383
    && NoOverload(bs.low, x.low) && WidthAt(bs.low, x.low, e.bits) <= a
    && InnerHigh(bs.high, x.high) && 564 * bs.high.det / 0x1000 <= b
  }

  /** All pairs under the receive filter at pair k are. */
  predicate TrackedUpTo(e: Mode, xs: seq<Pair>, k: nat, a: int, b: int)
    requires k < |xs|
  {
    forall i: nat :: k - 12 < i <= k ==> Tracked(e, xs, i, a, b)
  }

  lemma TrackedPairs(e: Mode, d: Mode, xs: seq<Pair>, k: nat, a: int, b: int)
    requires e.bits == d.bits && !e.eightK && !d.eightK && k < |xs| && TrackedUpTo(e, xs, k, a, b)
    ensures PairsClose(DecodePairs(d, INIT, EncodeCodes(e, INIT, xs)), xs, k, a, b)
  {
    hide EncodeBands, DecodePairs, EncodeCodes, NoOverload, WidthAt, InnerHigh, INIT;
    var ys := DecodePairs(d, INIT, EncodeCodes(e, INIT, xs));
    forall i | 0 <= i <= k && k - 12 < i
      ensures Within(ys[i].low, xs[i].low, a) && Within(ys[i].high, xs[i].high, b)
    {
      assert Tracked(e, xs, i, a, b);
      LowBandErrorOnRun(e, d, xs, i);
      HighBandErrorOnRun(e, d, xs, i);
    }
  }

  function Tolerance(peak: nat, a: nat, b: nat): nat {
    QmfTolerance(peak) + (a + b) * TOTAL_GAIN / 0x800 + 1
  }

  /** The value of an output sample before it is narrowed to 16 bits. */
  function Wide(xs: seq<Pair>, k: nat, r: nat): int
    requires k < |xs| && r < 2
  {
    Receive(xs, k, r, 0) / 0x800
  }

  /** The decoded sample stays close to the input of 22 samples earlier, for any 16-bit signal and any rate. */
  lemma WidebandError(e: Mode, d: Mode, amp: seq<int>, peak: nat, k: nat, r: nat, a: nat, b: nat)
    requires e.bits == d.bits && UsesQmf(e) && UsesQmf(d) && WholePairs(e, amp) && r < 2
    requires PeakAt(amp, peak) && k < |Pairs(e, SILENCE, amp)|
    requires TrackedUpTo(e, Pairs(e, SILENCE, amp), k, a, b)
    ensures 2 * k + r < |amp|
    ensures Within(Wide(DecodePairs(d, INIT, EncodeCodes(e, INIT, Pairs(e, SILENCE, amp))), k, r),
                   At(amp, 2 * k + r - 22), Tolerance(peak, a, b))
  {
    hide DecodePairs, EncodeCodes, TrackedUpTo, PairsClose, Receive, QmfTolerance, At, INIT;
    var xs := Pairs(e, SILENCE, amp);
    var ys := DecodePairs(d, INIT, EncodeCodes(e, INIT, xs));
    hide Pairs;
    TrackedPairs(e, d, xs, k, a, b);
    ReceiveClose(ys, xs, k, r, 0, a, b);
    PhaseGains(r);
    QmfPairDelays(e, amp, peak, k, r);
    Quotients(Receive(ys, k, r, 0), Receive(xs, k, r, 0), (a + b) * TOTAL_GAIN);
  }

  lemma Quotients(x: int, y: int, tolerance: int)
    requires Within(x, y, tolerance)
    ensures Within(x / 0x800, y / 0x800, tolerance / 0x800 + 1)
  {}

  /** What a decoder puts out for any bytes in any calls, sample by sample. */
  lemma SamplesOfCalls(d: Mode, parts: seq<seq<nat>>, k: nat, r: nat)
    requires UsesQmf(d) && r < 2 && k < |DecodedPairs(d, RESET, Concat(parts))|
    ensures var output, xs := DecodeCalls(d, RESET, parts).output, DecodedPairs(d, RESET, Concat(parts));
            && |output| == 2 * |xs|
            && output[2 * k + r] == ToInt16(Receive(xs, k, r, 0) / 0x800)
  {
    hide DecodePairs, Receive, Samples, Received, DecodeCalls, ToInt16;
    DecodeCallsAreOne(d, RESET, parts);
    SamplesAreFir(d, DecodedPairs(d, RESET, Concat(parts)), k, r);
  }

  /** From end to end: 16 kHz sound in, the same sound 22 samples later out, within the tolerance wherever the
      encoder can follow, for any calls on both sides; exactly as many samples as whole bytes carry. A sample
      is narrowed to 16 bits, which changes nothing if the signal leaves room for the tolerance. */
  lemma WidebandEndToEnd(e: Mode, d: Mode, amps: seq<seq<int>>, parts: seq<seq<nat>>, peak: nat, k: nat, r: nat,
                         a: nat, b: nat)
    requires e.bits == d.bits && e.packed == d.packed && UsesQmf(e) && UsesQmf(d) && r < 2
    requires WholeCalls(e, amps) && Concat(parts) == EncodeCalls(e, RESET, amps).output
    requires PeakAt(Concat(amps), peak)
    ensures WholePairs(e, Concat(amps))
    ensures var amp, output := Concat(amps), DecodeCalls(d, RESET, parts).output;
            var xs := Pairs(e, SILENCE, amp);
            var n := CodesThrough(e, |xs|);
            && n <= |xs| && |output| == 2 * n
            && (k < n && TrackedUpTo(e, xs, k, a, b) ==>
                  && 2 * k + r < |amp|
                  && var v := Wide(DecodePairs(d, INIT, EncodeCodes(e, INIT, xs)), k, r);
                     && output[2 * k + r] == ToInt16(v)
                     && Within(v, At(amp, 2 * k + r - 22), Tolerance(peak, a, b))
                     && (peak + Tolerance(peak, a, b) <= 0x7fff ==> output[2 * k + r] == v))
  {
    hide DecodePairs, EncodeCodes, TrackedUpTo, Receive, Pairs, Tolerance, Received, EncodedBytes, EncodeCalls,
      DecodeCalls, CodesThrough, At;
    EncodeCallsAreOne(e, RESET, amps);
    var amp := Concat(amps);
    var xs := Pairs(e, SILENCE, amp);
    var n := CodesThrough(e, |xs|);
    ArrivedPairs(e, d, amp);
    if n > 0 {
      SamplesOfCalls(d, parts, if k < n then k else 0, r);
    } else {
      NoSamples(d, parts);
    }
    if k < n && TrackedUpTo(e, xs, k, a, b) {
      WidebandError(e, d, amp, peak, k, r, a, b);
      ReceiveCausal(DecodePairs(d, INIT, EncodeCodes(e, INIT, xs)), n, k, r, 0);
      AtPeak(amp, 2 * k + r - 22, peak);
    }
  }

  lemma NoSamples(d: Mode, parts: seq<seq<nat>>)
    requires DecodedPairs(d, RESET, Concat(parts)) == []
    ensures DecodeCalls(d, RESET, parts).output == []
  {
    hide DecodeCalls;
    DecodeCallsAreOne(d, RESET, parts);
  }

  lemma AtPeak(amp: seq<int>, i: int, peak: nat)
    requires i < |amp| && PeakAt(amp, peak)
    ensures -(peak as int) <= At(amp, i) <= peak
  {}

  /** The pairs a decoder makes of the bytes that have arrived. */
  lemma ArrivedPairs(e: Mode, d: Mode, amp: seq<int>)
    requires e.bits == d.bits && e.packed == d.packed && WholePairs(e, amp)
    ensures var xs := Pairs(e, SILENCE, amp);
            var n := CodesThrough(e, |xs|);
            && n <= |xs|
            && DecodedPairs(d, RESET, EncodedBytes(e, RESET, amp))
               == DecodePairs(d, INIT, EncodeCodes(e, INIT, xs))[..n]
  {
    hide EncodeCodes, DecodePairs, Received, Pairs, CodesThrough, EncodedBytes;
    TransportKeepsCodes(e, amp);
    SameReceived(e, d, RESET, EncodedBytes(e, RESET, amp));
    DecodePrefix(d, INIT, EncodeCodes(e, INIT, Pairs(e, SILENCE, amp)), Arrived(e, amp));
  }
}
