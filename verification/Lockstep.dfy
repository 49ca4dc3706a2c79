/** What the two state machines keep, alone and against each other, over whole runs. */
module Lockstep {
  import opened FixedPoint
  import opened Tables
  import opened StepSize
  import opened Quantizer
  import opened Codec
  import P = Predictor

  // ---------- Range, stability and step size on every reachable state ----------

  predicate LowOk(st: P.BandState) {
    P.Stable(st) && 0 <= st.nb <= LOW_LIMIT && st.det == Scale(st.nb, LOW_SHIFT)
  }

  predicate HighOk(st: P.BandState) {
    P.Stable(st) && 0 <= st.nb <= HIGH_LIMIT && st.det == Scale(st.nb, HIGH_SHIFT)
  }

  predicate BandsOk(bs: Bands) {
    LowOk(bs.low) && HighOk(bs.high)
  }

  lemma InitOk()
    ensures BandsOk(INIT)
  {
    hide Scale;
    ScaleEnds();
  }

  /** A step size of at most 16384 keeps every quantized difference in 16 bits. */
  lemma ScaledDifferenceFits(det: int, q: int)
    requires 0 <= det <= 16384 && -24808 <= q <= 24808
    ensures -12404 <= det * q / 0x8000 <= 12404
  {
    MulMono(-24808, q, det);
    MulMono(q, 24808, det);
  }

  lemma AdaptLowOk(st: P.BandState, ril: int)
    requires LowOk(st) && 0 <= ril < 16
    ensures LowOk(AdaptLow(st, ril))
  {
    hide P.Block4, P.Stable;
    LowStepRange(st.nb);
    ScaledDifferenceFits(st.det, Qm4(ril));
    var nb := NextNb(st.nb, Wl(Rl42(ril)), LOW_LIMIT);
    var stepped := st.(nb := nb, det := Scale(nb, LOW_SHIFT));
    StableIgnoresStep(st, stepped);
    P.Block4Stable(stepped, st.det * Qm4(ril) / 0x8000);
    Block4KeepsStep(stepped, st.det * Qm4(ril) / 0x8000);
  }

  lemma AdaptHighOk(st: P.BandState, ihigh: int)
    requires HighOk(st) && 0 <= ihigh < 4
    ensures HighOk(AdaptHigh(st, ihigh))
  {
    hide P.Block4, P.Stable;
    HighStepRange(st.nb);
    ScaledDifferenceFits(st.det, Qm2(ihigh));
    var nb := NextNb(st.nb, Wh(Rh2(ihigh)), HIGH_LIMIT);
    var stepped := st.(nb := nb, det := Scale(nb, HIGH_SHIFT));
    StableIgnoresStep(st, stepped);
    P.Block4Stable(stepped, st.det * Qm2(ihigh) / 0x8000);
    Block4KeepsStep(stepped, st.det * Qm2(ihigh) / 0x8000);
  }

  lemma StableIgnoresStep(st: P.BandState, st': P.BandState)
    requires P.Stable(st) && st' == st.(nb := st'.nb, det := st'.det)
    ensures P.Stable(st')
  {}

  lemma Block4KeepsStep(st: P.BandState, dif: int)
    ensures P.Block4(st, dif).nb == st.nb && P.Block4(st, dif).det == st.det
  {}

  /** Every state of an encoder run, whatever the samples, modes and rates. */
  lemma {:induction false} EncoderInvariant(m: Mode, bs: Bands, xs: seq<Pair>)
    requires BandsOk(bs)
    ensures BandsOk(EncodeBands(m, bs, xs))
  {
    hide AdaptLow, AdaptHigh, LowOk, HighOk;
    if xs != [] {
      var n := |xs| - 1;
      EncoderInvariant(m, bs, xs[..n]);
      var before := EncodeBands(m, bs, xs[..n]);
      AdaptLowOk(before.low, SentLow(before.low, xs[n].low) / 4);
      AdaptHighOk(before.high, SentHigh(m, before.high, xs[n].high));
    }
  }

  /** Every state of a decoder run, also on codes no encoder ever sends. */
  lemma {:induction false} DecoderInvariant(m: Mode, bs: Bands, codes: seq<nat>)
    requires BandsOk(bs)
    ensures BandsOk(DecodeBands(m, bs, codes))
  {
    hide AdaptLow, AdaptHigh, LowOk, HighOk;
    if codes != [] {
      var n := |codes| - 1;
      DecoderInvariant(m, bs, codes[..n]);
      var before := DecodeBands(m, bs, codes[..n]);
      AdaptLowOk(before.low, CoarseIndex(codes[n], m.bits));
      AdaptHighOk(before.high, HighIndex(codes[n], m.bits));
    }
  }

  // ---------- Lockstep ----------

  lemma SentParts(m: Mode, bs: Bands, x: Pair)
    ensures CoarseIndex(EncodeCode(m, bs, x), m.bits) == SentLow(bs.low, x.low) / 4
    ensures HighIndex(EncodeCode(m, bs, x), m.bits) == SentHigh(m, bs.high, x.high)
    ensures LowIndex(EncodeCode(m, bs, x), m.bits) == Truncate(SentLow(bs.low, x.low), m.bits)
    ensures EncodeCode(m, bs, x) < Pow2(m.bits)
  {
    CodeParts(SentLow(bs.low, x.low), SentHigh(m, bs.high, x.high), m.bits);
  }

  /** The decoder follows the encoder: after the same number of codes the low bands are equal in every
      field, whatever the two bandwidth flags are; the high bands too when both sides run them. */
  lemma {:induction false} StaysInLockstep(e: Mode, d: Mode, bs: Bands, bs': Bands, xs: seq<Pair>)
    requires e.bits == d.bits
    requires bs.low == bs'.low
    ensures var sent := EncodeBands(e, bs, xs);
            var received := DecodeBands(d, bs', EncodeCodes(e, bs, xs));
            && received.low == sent.low
            && (bs.high == bs'.high && !e.eightK && !d.eightK ==> received.high == sent.high)
  {
    hide AdaptLow, AdaptHigh, SentLow, SentHigh, CoarseIndex, HighIndex, LowIndex, EncodeCode;
    if xs != [] {
      var n := |xs| - 1;
      StaysInLockstep(e, d, bs, bs', xs[..n]);
      assert EncodeCodes(e, bs, xs)[..n] == EncodeCodes(e, bs, xs[..n]);
      SentParts(e, EncodeBands(e, bs, xs[..n]), xs[n]);
    }
  }

  /** Prefixes of a run are the runs on the prefixes. */
  lemma {:induction false} EncodePrefix(m: Mode, bs: Bands, xs: seq<Pair>, n: nat)
    requires n <= |xs|
    ensures EncodeCodes(m, bs, xs)[..n] == EncodeCodes(m, bs, xs[..n])
    ensures n < |xs| ==> EncodeCodes(m, bs, xs)[n] == EncodeCode(m, EncodeBands(m, bs, xs[..n]), xs[n])
  {
    hide EncodeCode, EncodeStep;
    if n == |xs| {
      assert xs[..n] == xs;
    } else {
      var last := |xs| - 1;
      EncodePrefix(m, bs, xs[..last], n);
      assert xs[..last][..n] == xs[..n];
    }
  }

  lemma {:induction false} DecodePrefix(m: Mode, bs: Bands, codes: seq<nat>, n: nat)
    requires n <= |codes|
    ensures DecodePairs(m, bs, codes)[..n] == DecodePairs(m, bs, codes[..n])
    ensures n < |codes| ==>
              var before := DecodeBands(m, bs, codes[..n]);
              DecodePairs(m, bs, codes)[n]
              == Pair(ReconstructLow(before.low, codes[n], m.bits), ReconstructHigh(m, before.high, codes[n]))
  {
    hide DecodeStep, ReconstructLow, ReconstructHigh;
    if n == |codes| {
      assert codes[..n] == codes;
    } else {
      var last := |codes| - 1;
      DecodePrefix(m, bs, codes[..last], n);
      assert codes[..last][..n] == codes[..n];
    }
  }

  // ---------- Embedded rates ----------

  /** At 56 and 48 kbit/s the encoder goes through the same states as at 64 kbit/s and sends the same
      codes with the low one or two bits cut off. */
  lemma {:induction false} EmbeddedEncoder(m: Mode, full: Mode, bs: Bands, xs: seq<Pair>)
    requires full.bits == 8 && m.eightK == full.eightK
    ensures EncodeBands(m, bs, xs) == EncodeBands(full, bs, xs)
    ensures forall k :: 0 <= k < |xs| ==>
                          EncodeCodes(m, bs, xs)[k] == Truncate(EncodeCodes(full, bs, xs)[k], m.bits)
  {
    hide AdaptLow, AdaptHigh, SentLow, HighCode, BitOr;
    if xs != [] {
      EmbeddedEncoder(m, full, bs, xs[..|xs| - 1]);
    }
  }

  lemma TruncatedIndices(code: nat, bits: int)
    requires IsRate(bits)
    ensures Truncate(code, bits) >= 0
    ensures CoarseIndex(Truncate(code, bits), bits) == CoarseIndex(code, 8)
    ensures HighIndex(Truncate(code, bits), bits) == HighIndex(code, 8)
  {
    if bits == 7 {
      assert code / 2 / 32 == code / 64 && code / 2 % 32 == code % 64 / 2;
    } else if bits == 6 {
      assert code / 4 / 16 == code / 64 && code / 4 % 16 == code % 64 / 4;
    }
  }

  function TruncateAll(codes: seq<nat>, bits: int): (cut: seq<nat>)
    requires IsRate(bits)
    ensures |cut| == |codes|
  {
    seq(|codes|, k requires 0 <= k < |codes| => Truncate(codes[k], bits))
  }

  /** Any byte stream at all leaves the decoders of the three rates in the same state, each fed the
      bytes cut to its width. */
  lemma {:induction false} EmbeddedDecoder(m: Mode, full: Mode, bs: Bands, codes: seq<nat>)
    requires full.bits == 8 && m.eightK == full.eightK
    ensures DecodeBands(m, bs, TruncateAll(codes, m.bits)) == DecodeBands(full, bs, codes)
  {
    hide AdaptLow, AdaptHigh, CoarseIndex, HighIndex, Truncate;
    if codes != [] {
      var n := |codes| - 1;
      EmbeddedDecoder(m, full, bs, codes[..n]);
      assert TruncateAll(codes, m.bits)[..n] == TruncateAll(codes[..n], m.bits);
      TruncatedIndices(codes[n], m.bits);
    }
  }

  // ---------- Narrowband encoder, wideband decoder ----------

  /** A high band that carries no signal. The two pole coefficients are free. */
  predicate Silent(st: P.BandState) {
    && st.s == st.sp == st.sz == st.r1 == st.r2 == st.p1 == st.p2 == 0
    && st.d == P.ZEROS && st.b == P.ZEROS
    && st.nb == 0 && st.det == 8
  }

  /** Block 4 on a zero difference: nothing is predicted and nothing is stored, but the leak and the
      sign products push the first pole coefficient up. */
  lemma SilentBlock4(st: P.BandState)
    requires Silent(st) && P.PoleStable(st.a1, st.a2) && st.a1 >= 0
    ensures Silent(P.Block4(st, 0))
    ensures P.PoleStable(P.Block4(st, 0).a1, P.Block4(st, 0).a2)
    ensures P.Block4(st, 0).a1 >= 192
  {
    hide P.ZeroSum;
    var n := P.Block4(st, 0);
    assert n.b == P.ZEROS;
    assert n.d == P.ZEROS;
    ZeroFilter(n.d);
  }

  /** The code 3, which a narrowband encoder always sends, keeps a silent band silent, and pushes
      the first pole coefficient away from zero for good. */
  lemma SilentStep(st: P.BandState)
    requires Silent(st) && P.PoleStable(st.a1, st.a2) && st.a1 >= 0
    ensures Silent(AdaptHigh(st, 3))
    ensures P.PoleStable(AdaptHigh(st, 3).a1, AdaptHigh(st, 3).a2)
    ensures AdaptHigh(st, 3).a1 >= 192
  {
    hide Scale, P.Block4;
    ScaleEnds();
    assert NextNb(0, Wh(Rh2(3)), HIGH_LIMIT) == 0;
    assert st.det * Qm2(3) / 0x8000 == 0;
    SilentBlock4(st);
    assert st.(nb := 0, det := 8) == st;
  }

  lemma ZeroFilter(d: seq<int>)
    requires |d| == 6
    ensures P.ZeroSum(P.ZEROS, d, 0) == 0
  {
    assert P.ZeroSum(P.ZEROS, d, 6) == 0;
    assert P.ZeroSum(P.ZEROS, d, 5) == 0;
    assert P.ZeroSum(P.ZEROS, d, 4) == 0;
    assert P.ZeroSum(P.ZEROS, d, 3) == 0;
    assert P.ZeroSum(P.ZEROS, d, 2) == 0;
    assert P.ZeroSum(P.ZEROS, d, 1) == 0;
  }

  /** A wideband decoder fed by a narrowband encoder keeps its high band silent on every run: every
      high-band sample is zero, although the high-band coefficients never return to zero. */
  lemma {:induction false} Interworking(e: Mode, d: Mode, bs: Bands, xs: seq<Pair>)
    requires e.bits == d.bits && e.eightK && !d.eightK
    ensures var codes := EncodeCodes(e, bs, xs);
            var high := DecodeBands(d, INIT, codes).high;
            && Silent(high) && P.PoleStable(high.a1, high.a2)
            && high.a1 >= (if xs == [] then 0 else 192)
            && forall k :: 0 <= k < |xs| ==> DecodePairs(d, INIT, codes)[k].high == 0
  {
    hide AdaptLow, AdaptHigh, SentLow, CoarseIndex, HighIndex, EncodeCode;
    if xs != [] {
      var n := |xs| - 1;
      Interworking(e, d, bs, xs[..n]);
      var codes := EncodeCodes(e, bs, xs);
      assert codes[..n] == EncodeCodes(e, bs, xs[..n]);
      SentParts(e, EncodeBands(e, bs, xs[..n]), xs[n]);
      SilentStep(DecodeBands(d, INIT, codes[..n]).high);
    }
  }
}
