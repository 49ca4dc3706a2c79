/** The encoder context and `g722_encode`, in place and in 32-bit ints, against the functions on values. */
module G722Encoder {
  import opened FixedPoint
  import opened Tables
  import opened StepSize
  import opened Quantizer
  import opened Codec
  import opened Lockstep
  import opened Filterbank
  import opened BitStream
  import opened Session
  import opened SubBand
  import P = Predictor

  class Encoder {
    var ituTestMode: bool
    var packed: bool
    var eightK: bool
    var bitsPerSample: int32
    const x: array<int32>
    const low: Band
    const high: Band
    var outBuffer: uint32
    var outBits: int32

    ghost const Repr: set<object> := {this, x} + low.Repr + high.Repr

    ghost predicate Separate() {
      && x.Length == 24 && low.Shape() && high.Shape()
      && low.Repr !! high.Repr && x !in low.Repr && x !in high.Repr
      && this !in low.Repr && this !in high.Repr
    }

    ghost predicate Configured()
      reads this
    {
      IsRate(bitsPerSample) && (packed ==> bitsPerSample != 8) && outBits >= 0
    }

    ghost function GetMode(): Mode
      requires Configured()
      reads this
    {
      RawMode(ituTestMode, packed, eightK, bitsPerSample)
    }

    ghost function GetBands(): Bands
      requires Separate()
      reads low, low.r, low.a, low.p, low.d, low.b, high, high.r, high.a, high.p, high.d, high.b
    {
      Bands(low.State(), high.State())
    }

    ghost function GetState(): State
      requires Separate() && Configured()
      reads Repr
    {
      State(GetBands(), x[..], Carry(outBuffer, outBits))
    }

    ghost predicate Valid()
      reads Repr
    {
      && Separate() && Configured()
      && BandsOk(GetBands())
      && P.All16(x[..])
      && CarryOk(Carry(outBuffer, outBits))
    }

    /** `g722_encoder_init`. */
    constructor (rate: int, options: uint32)
      ensures Valid() && fresh(Repr)
      ensures GetMode() == ModeOf(rate, options)
      ensures GetState() == RESET
    {
      hide BandsOk, Scale, P.Stable, P.Block4, Pow2;
      var history, band0, band1 := FreshParts();
      ituTestMode := false;
      var bits := if rate == 48000 then 6 else if rate == 56000 then 7 else 8;
      bitsPerSample := bits;
      eightK := options % 2 == 1;
      packed := options / 2 % 2 == 1 && bits != 8;
      x, low, high, outBuffer, outBits := history, band0, band1, 0, 0;
      new;
      assert x[..] == SILENCE;
      InitOk();
    }

    // ---------- The blocks of one pass of the loop ----------

    /** The transmit QMF. */
    method TransmitQmf(a: int16, b: int16) returns (xlow: int32, xhigh: int32)
      requires x.Length == 24 && P.All16(x[..])
      modifies x
      ensures x[..] == ShiftIn(old(x[..]), a, b)
      ensures P.All16(x[..])
      ensures xlow == (SumEven(x[..], 12) + SumOdd(x[..], 12)) / 0x4000
      ensures xhigh == (SumEven(x[..], 12) - SumOdd(x[..], 12)) / 0x4000
      ensures -25929 <= xlow <= 25928 && -25929 <= xhigh <= 25928
    {
      ShiftDown(x);
      x[22] := a;
      x[23] := b;
      assert x[..] == ShiftIn(old(x[..]), a, b);
      var sumeven: int32, sumodd: int32 := TapSums(x);
      TotalGain();
      SumBounds(x[..], 12);
      var sum: int32 := sumeven + sumodd;
      var difference: int32 := sumeven - sumodd;
      xlow := sum / 0x4000;
      xhigh := difference / 0x4000;
    }

    /** QUANTL: the linear search, and the code of the cell it stops in. */
    method Quantl(el: int16, det: int32) returns (ilow: int32)
      requires 0 <= det <= 16384
      ensures ilow == LowCode(el, det)
    {
      hide Q6, Iln, Ilp;
      var wd: int32 := if el >= 0 then el else -(el + 1);
      var i: int32 := 1;
      while i < 30
        invariant 1 <= i <= 30
        invariant Search(wd, det, i) == Search(wd, det, 1)
      {
        LevelFits(i, det);
        var product: int32 := Q6(i) * det;
        var wd1: int32 := product / 0x1000;
        if wd < wd1 {
          break;
        }
        i := i + 1;
      }
      ilow := if el < 0 then Iln(i) else Ilp(i);
    }

    /** Blocks 1L to 4L: quantize one low-band sample and adapt. */
    method EncodeLow(xlow: int32) returns (ilow: int32)
      requires low.Shape() && LowOk(low.State()) && -0x4000_0000 <= xlow < 0x4000_0000
      modifies low.Repr
      ensures ilow == SentLow(old(low.State()), xlow)
      ensures low.State() == AdaptLow(old(low.State()), ilow / 4)
      ensures LowOk(low.State())
    {
      hide P.Block4, Scale;
      ghost var st := low.State();
      LowStepRange(low.nb);
      var difference: int32 := xlow - low.s;
      var el := Saturate(difference);
      ilow := Quantl(el, low.det);
      var ril: int32 := ilow / 4;
      ScaledDifferenceFits(low.det, Qm4(ril));
      var product: int32 := low.det * Qm4(ril);
      var dlow: int32 := Shr15(product);
      AdaptLowOk(st, ril);
      low.UpdateLogStep(Wl(Rl42(ril)), LOW_LIMIT);
      low.UpdateStep(LOW_SHIFT);
      assert low.State() == st.(nb := low.nb, det := low.det);
      low.Block4(dlow);
    }

    /** Blocks 1H to 4H. */
    method EncodeHigh(xhigh: int32) returns (ihigh: int32)
      requires high.Shape() && HighOk(high.State()) && -0x4000_0000 <= xhigh < 0x4000_0000
      modifies high.Repr
      ensures ihigh == HighCode(Difference(xhigh, old(high.State())), old(high.det))
      ensures high.State() == AdaptHigh(old(high.State()), ihigh)
      ensures HighOk(high.State())
    {
      hide P.Block4, Scale;
      ghost var st := high.State();
      HighStepRange(high.nb);
      var difference: int32 := xhigh - high.s;
      var eh := Saturate(difference);
      var wd: int32 := if eh >= 0 then eh else -(eh + 1);
      var product: int32 := 564 * high.det;
      var wd1: int32 := product / 0x1000;
      var mih: int32 := if wd >= wd1 then 2 else 1;
      ihigh := if eh < 0 then Ihn(mih) else Ihp(mih);
      ScaledDifferenceFits(high.det, Qm2(ihigh));
      product := high.det * Qm2(ihigh);
      var dhigh: int32 := Shr15(product);
      AdaptHighOk(st, ihigh);
      high.UpdateLogStep(Wh(Rh2(ihigh)), HIGH_LIMIT);
      high.UpdateStep(HIGH_SHIFT);
      assert high.State() == st.(nb := high.nb, det := high.det);
      high.Block4(dhigh);
    }

    /** Both bands of one sample pair, and the code word. */
    method EncodePair(xlow: int32, xhigh: int32) returns (code: uint8)
      requires Valid() && -0x4000_0000 <= xlow < 0x4000_0000 && -0x4000_0000 <= xhigh < 0x4000_0000
      modifies low.Repr, high.Repr
      ensures Valid() && GetMode() == old(GetMode())
      ensures var m, st, pair := GetMode(), old(GetState()), Pair(xlow, xhigh);
              && GetState() == st.(bands := EncodeStep(m, st.bands, pair))
              && code == EncodeCode(m, st.bands, pair) < Pow2(m.bits)
    {
      hide LowOk, HighOk, AdaptLow, AdaptHigh, SentLow, HighCode, BitOr, Pow2;
      ghost var bs, m, pair := GetBands(), GetMode(), Pair(xlow, xhigh);
      SentParts(m, bs, pair);
      CodeIsByte(m, bs, pair);
      var ilow := EncodeLow(xlow);
      if eightK {
        code := Truncate(BitOr(ilow, 0xC0), bitsPerSample);
      } else {
        var ihigh := EncodeHigh(xhigh);
        code := Truncate(BitOr(ilow, ihigh * 64), bitsPerSample);
      }
    }

    /** Packing of one code; returns the byte it completes, if it does. */
    method PackCode(code: uint8) returns (complete: bool, byte: uint8)
      requires Configured() && packed && CarryOk(Carry(outBuffer, outBits)) && code < Pow2(bitsPerSample)
      modifies this`outBuffer, this`outBits
      ensures outBits >= 0
      ensures var c := Carry(old(outBuffer), old(outBits));
              && Carry(outBuffer, outBits) == PackStep(bitsPerSample, c, code)
              && CarryOk(Carry(outBuffer, outBits))
              && (if complete then [byte] else []) == PackedBy(bitsPerSample, c, code)
    {
      hide Pow2, BitOr, Bits, Flatten;
      ghost var c := Carry(outBuffer, outBits);
      PackStepConserves(bitsPerSample, c, code, []);
      LoadedBits(c, code, bitsPerSample);
      PowBound(outBits + bitsPerSample);
      ShiftedFits(code, bitsPerSample, outBits);
      var shifted: uint32 := code * Pow2(outBits);
      outBuffer := BitOr(outBuffer, shifted);
      outBits := outBits + bitsPerSample;
      complete, byte := false, 0;
      if outBits >= 8 {
        complete, byte := true, outBuffer % 0x100;
        outBits := outBits - 8;
        outBuffer := outBuffer / 0x100;
      }
    }

    /** The head of the loop body: takes one or two samples and makes the sub-band pair of them. `xhigh`
        carries over from the pass before, as the C variable does. */
    method Split(amp: array<int16>, j: nat, xhighBefore: int32) returns (xlow: int32, xhigh: int32, next: nat)
      requires Valid() && amp !in Repr && j + Stride(GetMode()) <= amp.Length
      requires CarriesHigh(GetMode(), xhighBefore)
      modifies x
      ensures Valid() && GetMode() == old(GetMode())
      ensures next == j + Stride(GetMode())
      ensures GetState() == old(GetState()).(x := NextHistory(GetMode(), old(GetState()), amp[j..next]))
      ensures Pair(xlow, xhigh) == NextPair(GetMode(), old(GetState()), amp[j..next])
      ensures CarriesHigh(GetMode(), xhigh)
      ensures -25929 <= xlow <= 25928 && -25929 <= xhigh <= 25928
    {
      hide BandsOk, Band.State;
      if ituTestMode {
        xlow := amp[j] / 2;
        xhigh := xlow;
        next := j + 1;
      } else if eightK {
        xlow := amp[j] / 2;
        xhigh := xhighBefore;
        next := j + 1;
      } else {
        xlow, xhigh := TransmitQmf(amp[j], amp[j + 1]);
        next := j + 2;
      }
    }

    /** The tail of the loop body: emits the code, packed or as a byte of its own. */
    method Emit(code: uint8, g722Data: array<uint8>, g722Bytes: nat) returns (written: nat)
      requires Valid() && code < Pow2(GetMode().bits) && g722Data !in Repr
      requires g722Bytes + |CodeBytes(GetMode(), GetState(), code)| <= g722Data.Length
      modifies this`outBuffer, this`outBits, g722Data
      ensures Valid() && GetMode() == old(GetMode())
      ensures GetState() == old(GetState()).(carry := CodeCarry(GetMode(), old(GetState()), code))
      ensures var bytes := CodeBytes(GetMode(), old(GetState()), code);
              && written == g722Bytes + |bytes| <= g722Data.Length
              && g722Data[..written] == old(g722Data[..g722Bytes]) + bytes
              && g722Data[written..] == old(g722Data[written..])
    {
      hide BandsOk, PackStep, PackedBy, Band.State;
      written := g722Bytes;
      if packed {
        var complete, byte := PackCode(code);
        if complete {
          g722Data[written] := byte;
          written := written + 1;
        }
      } else {
        g722Data[written] := code;
        written := written + 1;
      }
    }

    /** One pass of the loop of `g722_encode`, from the state it finds. */
    method Pass(amp: array<int16>, j: nat, xhighBefore: int32, g722Data: array<uint8>, g722Bytes: nat)
      returns (next: nat, xhigh: int32, written: nat)
      requires Valid() && amp !in Repr && g722Data !in Repr && (amp as object) != g722Data
      requires j + Stride(GetMode()) <= amp.Length
      requires CarriesHigh(GetMode(), xhighBefore)
      requires g722Bytes + |NextBytes(GetMode(), GetState(), amp[j..j + Stride(GetMode())])| <= g722Data.Length
      modifies Repr, g722Data
      ensures Valid() && GetMode() == old(GetMode())
      ensures next == j + Stride(GetMode())
      ensures GetState() == NextState(GetMode(), old(GetState()), amp[j..next])
      ensures CarriesHigh(GetMode(), xhigh)
      ensures var bytes := NextBytes(GetMode(), old(GetState()), amp[j..next]);
              && written == g722Bytes + |bytes| <= g722Data.Length
              && g722Data[..written] == old(g722Data[..g722Bytes]) + bytes
              && g722Data[written..] == old(g722Data[written..])
    {
      hide Valid, GetState, GetMode, EncodeStep, EncodeCode, NextPair, NextHistory, PackStep, PackedBy, Pow2,
        Stride, CarriesHigh;
      var xlow: int32;
      xlow, xhigh, next := Split(amp, j, xhighBefore);
      var code := EncodePair(xlow, xhigh);
      written := Emit(code, g722Data, g722Bytes);
    }

    /** `g722_encode`: any number of samples in, whole bytes out, everything else kept for the next call. With
        the QMF an odd length reads one sample more, as the source does. */
    method Encode(amp: array<int16>, len: nat, g722Data: array<uint8>) returns (g722Bytes: nat)
      requires Valid() && ReadLength(GetMode(), len) <= amp.Length
      requires amp !in Repr && g722Data !in Repr && (amp as object) != g722Data
      requires |EncodedBytes(GetMode(), GetState(), amp[..ReadLength(GetMode(), len)])| <= g722Data.Length
      modifies Repr, g722Data
      ensures Valid() && GetMode() == old(GetMode())
      ensures var read := old(amp[..ReadLength(GetMode(), len)]);
              && GetState() == EncodedState(GetMode(), old(GetState()), read)
              && g722Bytes <= g722Data.Length
              && g722Data[..g722Bytes] == EncodedBytes(GetMode(), old(GetState()), read)
      ensures g722Data[g722Bytes..] == old(g722Data[g722Bytes..])
    {
      hide EncodedState, EncodedBytes, NextState, NextBytes, BandsOk;
      ghost var m, st, read := GetMode(), GetState(), ReadLength(GetMode(), len);
      ghost var all := amp[..read];
      EncodeNothing(m, st);
      g722Bytes := 0;
      var xhigh: int32 := 0;
      var j: nat := 0;
      while j < len
        invariant j <= read && amp[..read] == all && WholePairs(m, all[..j])
        invariant Valid() && GetMode() == m
        invariant GetState() == EncodedState(m, st, all[..j])
        invariant CarriesHigh(m, xhigh)
        invariant g722Bytes <= g722Data.Length
        invariant g722Data[..g722Bytes] == EncodedBytes(m, st, all[..j])
        invariant g722Data[g722Bytes..] == old(g722Data[g722Bytes..])
      {
        EncodeOneMore(m, st, all, j);
        SliceOfSlice(amp[..], read, j, j + Stride(m));
        ghost var held, start := g722Data[..], g722Bytes;
        j, xhigh, g722Bytes := Pass(amp, j, xhigh, g722Data, g722Bytes);
        TailOfTail(held, old(g722Data[..]), start, g722Bytes);
      }
      assert all[..j] == all;
    }
  }

  /** How many samples a call reads: whole passes of the loop, so one more if the last pass is cut short. */
  function ReadLength(m: Mode, len: nat): (read: nat)
    ensures len <= read < len + Stride(m) && read % Stride(m) == 0
  {
    if UsesQmf(m) && len % 2 == 1 then len + 1 else len
  }

  /** In narrowband mode `xhigh` is never assigned, so it still is the zero it started with. */
  predicate CarriesHigh(m: Mode, xhigh: int) {
    -25929 <= xhigh <= 25928 && (m.eightK ==> m.ituTestMode || xhigh == 0)
  }

  lemma SliceOfSlice(s: seq<int16>, len: nat, a: nat, b: nat)
    requires a <= b <= len <= |s|
    ensures s[..len][a..b] == s[a..b]
  {}

  lemma TailOfTail(s: seq<uint8>, t: seq<uint8>, a: nat, b: nat)
    requires a <= b <= |s| == |t| && s[a..] == t[a..]
    ensures s[b..] == t[b..]
  {
    assert s[b..] == s[a..][b - a..] && t[b..] == t[a..][b - a..];
  }

  lemma LevelFits(i: int, det: int32)
    requires 0 <= i < 32 && 0 <= det <= 16384
    ensures 0 <= Q6(i) * det <= 47824896
  {
    hide Q6;
    MulMono(0, Q6(i), det);
    MulMono(Q6(i), 2919, det);
  }

  lemma CodeIsByte(m: Mode, bs: Bands, x: Pair)
    ensures EncodeCode(m, bs, x) < 0x100
  {
    hide SentLow, SentHigh, CodeOf;
    CodeParts(SentLow(bs.low, x.low), SentHigh(m, bs.high, x.high), m.bits);
  }

  lemma PowBound(n: nat)
    requires n <= 15
    ensures Pow2(n) <= 0x8000
  {
    PowMono(n, 15);
    assert Pow2(15) == 0x8000;
  }

  lemma ShiftedFits(code: nat, bits: nat, shift: nat)
    requires code < Pow2(bits) && bits + shift <= 15
    ensures code * Pow2(shift) < 0x8000
  {
    hide Pow2;
    Pow2Add(bits, shift);
    PowBound(bits + shift);
    MulMono(code, Pow2(bits) - 1, Pow2(shift));
    assert (Pow2(bits) - 1) * Pow2(shift) == Pow2(bits) * Pow2(shift) - Pow2(shift);
  }

  /** The loop that moves the QMF history down by two places, upwards and in place. */
  method ShiftDown(x: array<int32>)
    requires x.Length == 24
    modifies x
    ensures x[..22] == old(x[2..])
  {
    for i := 0 to 22
      invariant forall k :: 0 <= k < i ==> x[k] == old(x[k + 2])
      invariant forall k :: i <= k < 24 ==> x[k] == old(x[k])
    {
      x[i] := x[i + 2];
    }
  }

  lemma TapFits(x: History, i: nat)
    requires i < 12 && P.All16(x)
    ensures -127008768 <= x[2 * i] * QmfCoeff(i) <= 127008768
    ensures -127008768 <= x[2 * i + 1] * QmfCoeff(11 - i) <= 127008768
    ensures -1524105216 <= SumOdd(x, i) + x[2 * i] * QmfCoeff(i) <= 1524105216
    ensures -1524105216 <= SumEven(x, i) + x[2 * i + 1] * QmfCoeff(11 - i) <= 1524105216
  {
    hide QmfCoeff, Gain;
    SumBounds(x, i);
    TermBound(x[2 * i], QmfCoeff(i));
    TermBound(x[2 * i + 1], QmfCoeff(11 - i));
  }

  /** The even and odd tap accumulators. */
  method TapSums(x: array<int32>) returns (sumeven: int32, sumodd: int32)
    requires x.Length == 24 && P.All16(x[..])
    ensures sumeven == SumEven(x[..], 12) && sumodd == SumOdd(x[..], 12)
  {
    hide QmfCoeff;
    sumeven, sumodd := 0, 0;
    for i := 0 to 12
      invariant sumodd == SumOdd(x[..], i) && sumeven == SumEven(x[..], i)
    {
      TapFits(x[..], i);
      var odd: int32 := x[2 * i] * QmfCoeff(i);
      var even: int32 := x[2 * i + 1] * QmfCoeff(11 - i);
      sumodd := sumodd + odd;
      sumeven := sumeven + even;
    }
  }
}
