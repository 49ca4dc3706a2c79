/** One sample of the encoder and one code of the decoder, on values, and runs of both. */
module Codec {
  import opened FixedPoint
  import opened Tables
  import opened StepSize
  import opened Quantizer
  import P = Predictor

  datatype RawMode = RawMode(ituTestMode: bool, packed: bool, eightK: bool, bits: int)

  /** The configuration part of a context. `packed` is only ever set below 8 bits per sample. */
  type Mode = m: RawMode | IsRate(m.bits) && (m.packed ==> m.bits != 8)
    witness RawMode(false, false, false, 8)

  /** What the two `init` functions make of a bit rate and the option bits. */
  function ModeOf(rate: int, options: uint32): (m: Mode)
    ensures !m.ituTestMode && (m.eightK <==> options % 2 == 1)
    ensures (m.bits == 6 <==> rate == 48000) && (m.bits == 7 <==> rate == 56000)
    ensures m.packed <==> options / 2 % 2 == 1 && rate in {48000, 56000}
  {
    var bits := if rate == 48000 then 6 else if rate == 56000 then 7 else 8;
    RawMode(false, options / 2 % 2 == 1 && bits != 8, options % 2 == 1, bits)
  }

  datatype Bands = Bands(low: P.BandState, high: P.BandState)

  const INIT := Bands(P.Fresh(32), P.Fresh(8))

  // ---------- The adaptation both sides run ----------

  /** INVQAL, LOGSCL, SCALEL and block 4, driven by the 4-bit low-band index. */
  function AdaptLow(st: P.BandState, ril: int): P.BandState
    requires 0 <= ril < 16
  {
    var dlow := st.det * Qm4(ril) / 0x8000;
    var nb := NextNb(st.nb, Wl(Rl42(ril)), LOW_LIMIT);
    P.Block4(st.(nb := nb, det := Scale(nb, LOW_SHIFT)), dlow)
  }

  /** INVQAH, LOGSCH, SCALEH and block 4, driven by the 2-bit high-band code. */
  function AdaptHigh(st: P.BandState, ihigh: int): P.BandState
    requires 0 <= ihigh < 4
  {
    var dhigh := st.det * Qm2(ihigh) / 0x8000;
    var nb := NextNb(st.nb, Wh(Rh2(ihigh)), HIGH_LIMIT);
    P.Block4(st.(nb := nb, det := Scale(nb, HIGH_SHIFT)), dhigh)
  }

  // ---------- Encoder ----------

  function Difference(x: int, st: P.BandState): int {
    Sat(x - st.s)
  }

  /** QUANTH: the upper bit of the code is the sign, the lower one tells an inner cell from an outer one. */
  function HighCode(eh: int, det: int): (ihigh: int)
    ensures 0 <= ihigh < 4
    ensures ihigh / 2 == 1 <==> eh >= 0
    ensures ihigh % 2 == 1 <==> Magnitude(eh) < 564 * det / 0x1000
  {
    var mih := if Magnitude(eh) >= 564 * det / 0x1000 then 2 else 1;
    if eh < 0 then Ihn(mih) else Ihp(mih)
  }

  /** `((ihigh << 6) | ilow) >> (8 - bits_per_sample)`. */
  function CodeOf(ilow: nat, ihigh: nat, bits: int): (code: nat)
    requires IsRate(bits)
  {
    Truncate(BitOr(ilow, ihigh * 64), bits)
  }

  /** The high-band part of what the encoder sends: all ones while it does not look at the high band. */
  function SentHigh(m: Mode, st: P.BandState, xhigh: int): (ihigh: int)
    ensures 0 <= ihigh < 4
  {
    if m.eightK then 3 else HighCode(Difference(xhigh, st), st.det)
  }

  function SentLow(st: P.BandState, xlow: int): (ilow: int)
    ensures 4 <= ilow < 64
  {
    LowCode(Difference(xlow, st), st.det)
  }

  function EncodeStep(m: Mode, bs: Bands, x: Pair): Bands {
    var low := AdaptLow(bs.low, SentLow(bs.low, x.low) / 4);
    if m.eightK then Bands(low, bs.high)
    else Bands(low, AdaptHigh(bs.high, SentHigh(m, bs.high, x.high)))
  }

  function EncodeCode(m: Mode, bs: Bands, x: Pair): nat {
    CodeOf(SentLow(bs.low, x.low), SentHigh(m, bs.high, x.high), m.bits)
  }

  /** The two sub-band samples one code is made from. */
  datatype Pair = Pair(low: int, high: int)

  function EncodeBands(m: Mode, bs: Bands, xs: seq<Pair>): Bands {
    if xs == [] then bs
    else
      var n := |xs| - 1;
      EncodeStep(m, EncodeBands(m, bs, xs[..n]), xs[n])
  }

  function EncodeCodes(m: Mode, bs: Bands, xs: seq<Pair>): (codes: seq<nat>)
    ensures |codes| == |xs|
  {
    if xs == [] then []
    else
      var n := |xs| - 1;
      EncodeCodes(m, bs, xs[..n]) + [EncodeCode(m, EncodeBands(m, bs, xs[..n]), xs[n])]
  }

  // ---------- Decoder ----------

  /** The low-band index of a code. */
  function LowIndex(code: nat, bits: int): (index: int)
    requires IsRate(bits)
    ensures 0 <= index < Levels(bits)
  {
    code % Levels(bits)
  }

  /** The high-band part of a code. */
  function HighIndex(code: nat, bits: int): (ihigh: int)
    requires IsRate(bits)
    ensures 0 <= ihigh < 4
  {
    code / Levels(bits) % 4
  }

  /** The 4-bit index that drives the adaptation. */
  function CoarseIndex(code: nat, bits: int): (ril: int)
    requires IsRate(bits)
    ensures 0 <= ril < 16
  {
    var index := LowIndex(code, bits);
    if bits == 8 then index / 4 else if bits == 7 then index / 2 else index
  }

  /** INVQBL, RECONS and LIMIT of the low band. */
  function ReconstructLow(st: P.BandState, code: nat, bits: int): int
    requires IsRate(bits)
  {
    Clamp(st.s + st.det * Inverse(LowIndex(code, bits), bits) / 0x8000, -16384, 16383)
  }

  /** INVQAH, RECONS and LIMIT of the high band; zero while only the low band is decoded. */
  function ReconstructHigh(m: Mode, st: P.BandState, code: nat): int {
    if m.eightK then 0
    else Clamp(st.det * Qm2(HighIndex(code, m.bits)) / 0x8000 + st.s, -16384, 16383)
  }

  function DecodeStep(m: Mode, bs: Bands, code: nat): Bands {
    var low := AdaptLow(bs.low, CoarseIndex(code, m.bits));
    if m.eightK then Bands(low, bs.high)
    else Bands(low, AdaptHigh(bs.high, HighIndex(code, m.bits)))
  }

  function DecodeBands(m: Mode, bs: Bands, codes: seq<nat>): Bands {
    if codes == [] then bs
    else
      var n := |codes| - 1;
      DecodeStep(m, DecodeBands(m, bs, codes[..n]), codes[n])
  }

  /** The sub-band samples the decoder reconstructs, one pair for each code. */
  function DecodePairs(m: Mode, bs: Bands, codes: seq<nat>): (xs: seq<Pair>)
    ensures |xs| == |codes|
  {
    if codes == [] then []
    else
      var n := |codes| - 1;
      var before := DecodeBands(m, bs, codes[..n]);
      DecodePairs(m, bs, codes[..n])
      + [Pair(ReconstructLow(before.low, codes[n], m.bits), ReconstructHigh(m, before.high, codes[n]))]
  }

  // ---------- Codes ----------

  /** A code fits its width, and the decoder takes it apart into exactly the parts the encoder put in. */
  lemma CodeParts(ilow: nat, ihigh: nat, bits: int)
    requires IsRate(bits) && ilow < 64 && ihigh < 4
    ensures var code := CodeOf(ilow, ihigh, bits);
            && code < 4 * Levels(bits) == Pow2(bits)
            && LowIndex(code, bits) == Truncate(ilow, bits)
            && CoarseIndex(code, bits) == ilow / 4
            && HighIndex(code, bits) == ihigh
  {
    hide BitOr;
    assert Pow2(6) == 64 && Pow2(7) == 128 && Pow2(8) == 256;
    BitOrDisjoint(ilow, ihigh, 6);
    assert (ilow + ihigh * 64) / 2 == ilow / 2 + ihigh * 32;
    assert (ilow + ihigh * 64) / 4 == ilow / 4 + ihigh * 16;
    Digits(ilow, ihigh, 64);
    Digits(ilow / 2, ihigh, 32);
    Digits(ilow / 4, ihigh, 16);
  }

  lemma Digits(low: nat, ihigh: nat, m: int)
    requires low < m && ihigh < 4
    ensures (low + ihigh * m) % m == low && (low + ihigh * m) / m % 4 == ihigh
  {
    QuotientUnique(low + ihigh * m, m, ihigh, low);
  }
}
