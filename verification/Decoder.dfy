/** The decoder context and `g722_decode`, in place and in 32-bit ints, against the functions on values. */
module G722Decoder {
  import opened FixedPoint
  import opened Tables
  import opened StepSize
  import opened Quantizer
  import opened Codec
  import opened Lockstep
  import opened Filterbank
  import opened BitStream
  import opened Session
  import opened SubBand
  import E = G722Encoder
  import P = Predictor

  class Decoder {
    var ituTestMode: bool
    var packed: bool
    var eightK: bool
    var bitsPerSample: int32
    const x: array<int32>
    const low: Band
    const high: Band
    var inBuffer: uint32
    var inBits: int32

    ghost const Repr: set<object> := {this, x} + low.Repr + high.Repr

    ghost predicate Separate() {
      && x.Length == 24 && low.Shape() && high.Shape()
      && low.Repr !! high.Repr && x !in low.Repr && x !in high.Repr
      && this !in low.Repr && this !in high.Repr
    }

    ghost predicate Configured()
      reads this
    {
      IsRate(bitsPerSample) && (packed ==> bitsPerSample != 8) && inBits >= 0
    }

    ghost function GetMode(): Mode
      requires Configured()
      reads this
    {
      RawMode(ituTestMode, packed, eightK, bitsPerSample)
    }

    ghost function GetBands(): Bands
      requires Separate()
      reads low, low.r, low.a, low.p, low.d, low.b, high, high.r, high.a, high.p, high.d, high.b
    {
      Bands(low.State(), high.State())
    }

    ghost function GetState(): State
      requires Separate() && Configured()
      reads Repr
    {
      State(GetBands(), x[..], Carry(inBuffer, inBits))
    }

    ghost predicate Valid()
      reads Repr
    {
      && Separate() && Configured()
      && BandsOk(GetBands())
      && P.All16(x[..])
      && CarryOk(Carry(inBuffer, inBits))
    }

    /** `g722_decoder_init`. */
    constructor (rate: int, options: uint32)
      ensures Valid() && fresh(Repr)
      ensures GetMode() == ModeOf(rate, options)
      ensures GetState() == RESET
    {
      hide BandsOk, Scale, P.Stable, P.Block4, Pow2;
      var history, band0, band1 := FreshParts();
      ituTestMode := false;
      var bits := if rate == 48000 then 6 else if rate == 56000 then 7 else 8;
      bitsPerSample := bits;
      eightK := options % 2 == 1;
      packed := options / 2 % 2 == 1 && bits != 8;
      x, low, high, inBuffer, inBits := history, band0, band1, 0, 0;
      new;
      assert x[..] == SILENCE;
      InitOk();
    }

    // ---------- The blocks of one pass of the loop ----------

    /** Takes the next code out of the carried bits, after taking in a byte if they do not suffice. */
    method TakeCode(g722Data: array<uint8>, j: nat) returns (code: uint8, next: nat)
      requires Valid() && j < g722Data.Length
      modifies this`inBuffer, this`inBits
      ensures Valid() && GetMode() == old(GetMode())
      ensures code == TakenCode(GetMode(), old(GetState()), g722Data[j])
      ensures next == if TakesByte(GetMode(), old(GetState())) then j + 1 else j
      ensures GetState() == old(GetState()).(carry := TakenCarry(GetMode(), old(GetState()), g722Data[j]))
      ensures next == j ==> inBits < old(inBits)
    {
      hide BandsOk, Band.State, Loaded, Pow2;
      next := j;
      if packed {
        ghost var c := Carry(inBuffer, inBits);
        UnpackFits(bitsPerSample, c, g722Data[j]);
        if inBits < bitsPerSample {
          ByteFits(g722Data[j], inBits);
          var shifted: uint32 := g722Data[j] * Pow2(inBits);
          LoadedForm(c, g722Data[j]);
          inBuffer := BitOr(inBuffer, shifted);
          inBits := inBits + 8;
          next := next + 1;
        }
        code := inBuffer % Pow2(bitsPerSample);
        inBuffer := inBuffer / Pow2(bitsPerSample);
        inBits := inBits - bitsPerSample;
      } else {
        code := g722Data[j];
        next := next + 1;
      }
    }

    /** The switch over the rate: the high-band code, the coarse index, and the INVQBL table entry. */
    method Fields(code: uint8) returns (ihigh: int32, wd1: int32, wd2: int32)
      requires IsRate(bitsPerSample)
      ensures ihigh == HighIndex(code, bitsPerSample)
      ensures wd1 == CoarseIndex(code, bitsPerSample)
      ensures wd2 == Inverse(LowIndex(code, bitsPerSample), bitsPerSample)
    {
      if bitsPerSample == 7 {
        wd1 := code % 0x20;
        ihigh := code / 0x20 % 4;
        wd2 := Qm5(wd1);
        wd1 := wd1 / 2;
      } else if bitsPerSample == 6 {
        wd1 := code % 0x10;
        ihigh := code / 0x10 % 4;
        wd2 := Qm4(wd1);
      } else {
        wd1 := code % 0x40;
        ihigh := code / 0x40 % 4;
        wd2 := Qm6(wd1);
        wd1 := wd1 / 4;
      }
    }

    /** INVQBL, RECONS and LIMIT of the low band, then its adaptation. */
    method DecodeLow(code: uint8) returns (rlow: int32, ihigh: int32)
      requires low.Shape() && LowOk(low.State()) && IsRate(bitsPerSample) && this !in low.Repr
      modifies low.Repr
      ensures rlow == ReconstructLow(old(low.State()), code, bitsPerSample)
      ensures ihigh == HighIndex(code, bitsPerSample)
      ensures low.State() == AdaptLow(old(low.State()), CoarseIndex(code, bitsPerSample))
      ensures LowOk(low.State())
    {
      hide P.Block4, Scale, LowIndex, HighIndex, CoarseIndex, Inverse;
      ghost var st := low.State();
      LowStepRange(low.nb);
      var wd1: int32, wd2: int32;
      ihigh, wd1, wd2 := Fields(code);
      rlow := ReconsLow(wd2);
      AdaptLowOk(st, wd1);
      ScaledDifferenceFits(low.det, Qm4(wd1));
      var product: int32 := low.det * Qm4(wd1);
      var dlowt: int32 := Shr15(product);
      low.UpdateLogStep(Wl(Rl42(wd1)), LOW_LIMIT);
      low.UpdateStep(LOW_SHIFT);
      assert low.State() == st.(nb := low.nb, det := low.det);
      low.Block4(dlowt);
    }

    method ReconsLow(q: int32) returns (rlow: int32)
      requires low.Shape() && LowOk(low.State()) && -24808 <= q <= 24808
      ensures rlow == Clamp(low.s + low.det * q / 0x8000, -16384, 16383)
    {
      hide Scale;
      LowStepRange(low.nb);
      ScaledDifferenceFits(low.det, q);
      var product: int32 := low.det * q;
      rlow := low.s + Shr15(product);
      if rlow > 16383 {
        rlow := 16383;
      } else if rlow < -16384 {
        rlow := -16384;
      }
    }

    /** INVQAH, RECONS and LIMIT of the high band, then its adaptation. */
    method DecodeHigh(ihigh: int32) returns (rhigh: int32)
      requires high.Shape() && HighOk(high.State()) && 0 <= ihigh < 4
      modifies high.Repr
      ensures rhigh == Clamp(old(high.det) * Qm2(ihigh) / 0x8000 + old(high.s), -16384, 16383)
      ensures high.State() == AdaptHigh(old(high.State()), ihigh)
      ensures HighOk(high.State())
    {
      hide P.Block4, Scale;
      ghost var st := high.State();
      HighStepRange(high.nb);
      ScaledDifferenceFits(high.det, Qm2(ihigh));
      var product: int32 := high.det * Qm2(ihigh);
      var dhigh: int32 := Shr15(product);
      rhigh := dhigh + high.s;
      if rhigh > 16383 {
        rhigh := 16383;
      } else if rhigh < -16384 {
        rhigh := -16384;
      }
      AdaptHighOk(st, ihigh);
      high.UpdateLogStep(Wh(Rh2(ihigh)), HIGH_LIMIT);
      high.UpdateStep(HIGH_SHIFT);
      assert high.State() == st.(nb := high.nb, det := high.det);
      high.Block4(dhigh);
    }

    /** Both bands of one code. */
    method DecodeCode(code: uint8) returns (rlow: int32, rhigh: int32)
      requires Valid()
      modifies low.Repr, high.Repr
      ensures Valid() && GetMode() == old(GetMode())
      ensures var m, st := GetMode(), old(GetState());
              && GetState() == st.(bands := DecodeStep(m, st.bands, code))
              && Pair(rlow, rhigh) == CodePair(m, st, code)
      ensures -16384 <= rlow <= 16383 && -16384 <= rhigh <= 16383
    {
      hide LowOk, HighOk, AdaptLow, AdaptHigh, LowIndex, HighIndex, CoarseIndex, Inverse, Pow2;
      var ihigh: int32;
      rhigh := 0;
      rlow, ihigh := DecodeLow(code);
      if !eightK {
        rhigh := DecodeHigh(ihigh);
      }
    }

    /** The tail of the loop body: the receive QMF, or the sub-band samples themselves. */
    method Output(rlow: int32, rhigh: int32, amp: array<int16>, outlen: nat) returns (written: nat)
      requires Valid() && amp !in Repr
      requires -16384 <= rlow <= 16383 && -16384 <= rhigh <= 16383
      requires outlen + |PairSamples(GetMode(), GetState(), Pair(rlow, rhigh))| <= amp.Length
      modifies x, amp
      ensures Valid() && GetMode() == old(GetMode())
      ensures GetState() == old(GetState()).(x := PairHistory(GetMode(), old(GetState()), Pair(rlow, rhigh)))
      ensures var samples := PairSamples(GetMode(), old(GetState()), Pair(rlow, rhigh));
              && written == outlen + |samples| <= amp.Length
              && amp[..written] == old(amp[..outlen]) + samples
              && amp[written..] == old(amp[written..])
    {
      hide BandsOk, Band.State, Band.Shape, SumEven, SumOdd, ShiftIn;
      if ituTestMode {
        var first: int32, second: int32 := rlow * 2, rhigh * 2;
        written := Store2(ToInt16(first), ToInt16(second), amp, outlen);
      } else if eightK {
        var only: int32 := rlow * 2;
        amp[outlen] := ToInt16(only);
        written := outlen + 1;
      } else {
        var xout1, xout2 := ReceiveQmf(rlow, rhigh);
        written := Store2(ToInt16(xout1 / 0x800), ToInt16(xout2 / 0x800), amp, outlen);
      }
    }

    /** The receive QMF. */
    method ReceiveQmf(rlow: int32, rhigh: int32) returns (xout1: int32, xout2: int32)
      requires x.Length == 24 && P.All16(x[..])
      requires -16384 <= rlow <= 16383 && -16384 <= rhigh <= 16383
      modifies x
      ensures x[..] == ShiftIn(old(x[..]), rlow + rhigh, rlow - rhigh)
      ensures P.All16(x[..])
      ensures xout1 == SumEven(x[..], 12) && xout2 == SumOdd(x[..], 12)
    {
      E.ShiftDown(x);
      x[22] := rlow + rhigh;
      x[23] := rlow - rhigh;
      assert x[..] == ShiftIn(old(x[..]), rlow + rhigh, rlow - rhigh);
      xout1, xout2 := E.TapSums(x);
    }

    /** One pass of the loop of `g722_decode`. */
    method Pass(g722Data: array<uint8>, j: nat, amp: array<int16>, outlen: nat)
      returns (next: nat, written: nat)
      requires Valid() && amp !in Repr && g722Data !in Repr && (amp as object) != g722Data
      requires j < g722Data.Length
      requires outlen + |SamplesOfCode(GetMode(), GetState(), g722Data[j])| <= amp.Length
      modifies Repr, amp
      ensures Valid() && GetMode() == old(GetMode())
      ensures GetState() == StateAfterCode(GetMode(), old(GetState()), g722Data[j])
      ensures next == if TakesByte(GetMode(), old(GetState())) then j + 1 else j
      ensures next == j ==> inBits < old(inBits)
      ensures var samples := SamplesOfCode(GetMode(), old(GetState()), g722Data[j]);
              && written == outlen + |samples| <= amp.Length
              && amp[..written] == old(amp[..outlen]) + samples
              && amp[written..] == old(amp[written..])
    {
      hide Valid, GetState, GetMode, DecodeStep, TakenCode, TakenCarry, TakesByte, SamplesOf, ReconstructLow,
        ReconstructHigh, ShiftIn;
      var code: uint8;
      code, next := TakeCode(g722Data, j);
      var rlow, rhigh := DecodeCode(code);
      written := Output(rlow, rhigh, amp, outlen);
    }

    /** `g722_decode`: any number of bytes in, samples out, everything else kept for the next call. */
    method Decode(g722Data: array<uint8>, len: nat, amp: array<int16>) returns (outlen: nat)
      requires Valid() && len <= g722Data.Length
      requires amp !in Repr && g722Data !in Repr && (amp as object) != g722Data
      requires |DecodedSamples(GetMode(), GetState(), g722Data[..len])| <= amp.Length
      modifies Repr, amp
      ensures Valid() && GetMode() == old(GetMode())
      ensures GetState() == DecodedState(old(GetMode()), old(GetState()), old(g722Data[..len]))
      ensures outlen <= amp.Length
      ensures amp[..outlen] == DecodedSamples(old(GetMode()), old(GetState()), old(g722Data[..len]))
      ensures amp[outlen..] == old(amp[outlen..])
    {
      hide DecodedState, DecodedSamples, StateAfterCode, SamplesOfCode, TakesByte, BandsOk, Band.State, Band.Shape;
      ghost var m, st, all := GetMode(), GetState(), g722Data[..len];
      assert all[0..] == all;
      outlen := 0;
      var j: nat := 0;
      while j < len
        invariant j <= len && g722Data[..len] == all
        invariant Valid() && GetMode() == m
        invariant DecodedState(m, st, all) == DecodedState(m, GetState(), all[j..])
        invariant outlen <= amp.Length
        invariant DecodedSamples(m, st, all) == amp[..outlen] + DecodedSamples(m, GetState(), all[j..])
        invariant amp[outlen..] == old(amp[outlen..])
        decreases len - j, inBits
      {
        DecodeFirst(m, GetState(), all[j..]);
        assert all[j..][0] == g722Data[j] && all[j..][1..] == all[j + 1..];
        j, outlen := Pass(g722Data, j, amp, outlen);
      }
      DecodeNothing(m, GetState());
    }
  }

  method Store2(a: int16, b: int16, amp: array<int16>, outlen: nat) returns (written: nat)
    requires outlen + 2 <= amp.Length
    modifies amp
    ensures written == outlen + 2
    ensures amp[..written] == old(amp[..outlen]) + [a, b]
    ensures amp[written..] == old(amp[written..])
  {
    amp[outlen] := a;
    amp[outlen + 1] := b;
    written := outlen + 2;
  }

  lemma ByteFits(byte: uint8, shift: nat)
    requires shift < 8
    ensures byte * Pow2(shift) < 0x8000
  {
    Pow2Eight();
    E.ShiftedFits(byte, 8, shift);
  }

  lemma LoadedForm(c: Carry, byte: uint8)
    ensures Loaded(c, byte) == BitOr(c.buffer, byte * Pow2(c.bits))
  {}

  /** Taking a code leaves a legal carry, and nothing on the way outgrows its variable. */
  lemma UnpackFits(bits: nat, c: Carry, byte: uint8)
    requires Width(bits) && CarryOk(c)
    ensures var full := Filled(bits, c, byte);
            && bits <= full.bits && full.buffer < 0x8000
            && CarryOk(Drained(bits, full))
            && Lower(full.buffer, bits) < 0x100
  {
    hide Pow2, Bits, Flatten, Loaded, Upper, Lower;
    var full := Filled(bits, c, byte);
    FilledConserves(bits, c, [byte]);
    E.PowBound(full.bits);
    Parts(full.buffer, bits, full.bits - bits);
    Pow2Eight();
    PowMono(bits, 8);
  }
}
