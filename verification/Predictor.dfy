/** The adaptive predictor of one sub-band ("block 4"), as a function on values. */
module Predictor {
  import opened FixedPoint

  /** One sub-band between two samples. The scratch parts of the C struct (ap, bp, sg and index 0 of
      every delay line) are left out: block 4 overwrites them before it reads them. Entry k of `d` and
      `b` is index k + 1 of the C arrays. */
  datatype RawBand = RawBand(
    s: int, sp: int, sz: int,
    r1: int, r2: int, p1: int, p2: int, a1: int, a2: int,
    d: seq<int>, b: seq<int>,
    nb: int, det: int)

  const ZEROS: seq<int> := [0, 0, 0, 0, 0, 0]

  type BandState = st: RawBand | |st.d| == 6 && |st.b| == 6
    witness RawBand(0, 0, 0, 0, 0, 0, 0, 0, 0, [0, 0, 0, 0, 0, 0], [0, 0, 0, 0, 0, 0], 0, 0)

  /** All fields zero but the step size. */
  function Fresh(det: int): BandState {
    RawBand(0, 0, 0, 0, 0, 0, 0, 0, 0, ZEROS, ZEROS, 0, det)
  }

  /** `x >> 15` on a 16-bit value: 0, or -1 for a negative one. */
  function Sign(x: int): int {
    x / 0x8000
  }

  function Uppol2(a1: int, a2: int, p0: int, p1: int, p2: int): int {
    var wd1 := Sat(4 * a1);
    var wd2 := if Sign(p0) == Sign(p1) then -wd1 else wd1;
    var wd2 := if wd2 > 0x7fff then 0x7fff else wd2;
    var wd3 := wd2 / 128 + (if Sign(p0) == Sign(p2) then 128 else -128) + (a2 * 32512) / 0x8000;
    Clamp(wd3, -12288, 12288)
  }

  function Uppol1(a1: int, ap2: int, p0: int, p1: int): int {
    var wd1 := if Sign(p0) == Sign(p1) then 192 else -192;
    var wd3 := Sat(15360 - ap2);
    Clamp(Sat(wd1 + (a1 * 32640) / 0x8000), -wd3, wd3)
  }

  /** One tap of UPZERO. */
  function UpzeroTap(b: int, di: int, dif: int): int {
    var wd1 := if dif == 0 then 0 else 128;
    Sat((if Sign(di) == Sign(dif) then wd1 else -wd1) + (b * 32640) / 0x8000)
  }

  function Upzero(b: seq<int>, d: seq<int>, dif: int): (bp: seq<int>)
    requires |b| == |d|
    ensures |bp| == |b|
  {
    seq(|b|, k requires 0 <= k < |b| => UpzeroTap(b[k], d[k], dif))
  }

  function Filtep(a1: int, a2: int, r1: int, r2: int): int {
    Sat((a1 * Sat(2 * r1)) / 0x8000 + (a2 * Sat(2 * r2)) / 0x8000)
  }

  /** The FILTEZ accumulator over the taps from k on. */
  function ZeroSum(b: seq<int>, d: seq<int>, k: nat): int
    requires |b| == |d| && k <= |b|
    decreases |b| - k
  {
    if k == |b| then 0 else ZeroSum(b, d, k + 1) + (b[k] * Sat(2 * d[k])) / 0x8000
  }

  /** Blocks RECONS to PREDIC, for the quantized difference `dif`. */
  function Block4(st: BandState, dif: int): BandState {
    var r0 := Sat(st.s + dif);
    var p0 := Sat(st.sz + dif);
    var ap2 := Uppol2(st.a1, st.a2, p0, st.p1, st.p2);
    var ap1 := Uppol1(st.a1, ap2, p0, st.p1);
    var b := Upzero(st.b, st.d, dif);
    var d := [dif] + st.d[..5];
    var sp := Filtep(ap1, ap2, r0, st.r1);
    var sz := Sat(ZeroSum(b, d, 0));
    RawBand(Sat(sp + sz), sp, sz, r0, st.r1, p0, st.p1, ap1, ap2, d, b, st.nb, st.det)
  }

  // ---------- Range and stability ----------

  predicate All16(xs: seq<int>) {
    forall k :: 0 <= k < |xs| ==> Fits16(xs[k])
  }

  /** What section 3.6 of ITU-T G.722 asks of the pole section. */
  predicate PoleStable(a1: int, a2: int) {
    -12288 <= a2 <= 12288 && a2 - 15360 <= a1 <= 15360 - a2
  }

  predicate Stable(st: BandState) {
    && Fits16(st.s) && Fits16(st.sp) && Fits16(st.sz)
    && Fits16(st.r1) && Fits16(st.r2) && Fits16(st.p1) && Fits16(st.p2)
    && PoleStable(st.a1, st.a2)
    && All16(st.d) && All16(st.b)
  }

  /** Block 4 keeps every field in 16 bits and the poles stable, for every 16-bit difference. */
  lemma Block4Stable(st: BandState, dif: int)
    requires Stable(st) && Fits16(dif)
    ensures Stable(Block4(st, dif))
  {
    var n := Block4(st, dif);
    assert All16(n.d);
    assert All16(n.b);
  }

  /** The saturations of UPPOL1 and UPZERO are dead code on every reachable state: the leak
      (255/256) is strong enough to hold the coefficients inside 16 bits by itself. */
  lemma LeakAlreadyBounds(a1: int, a2: int, ap2: int, p0: int, p1: int, b: int, di: int, dif: int)
    requires PoleStable(a1, a2) && -12288 <= ap2 <= 12288 && Fits16(b)
    ensures Uppol1(a1, ap2, p0, p1)
            == Clamp((if Sign(p0) == Sign(p1) then 192 else -192) + (a1 * 32640) / 0x8000,
                     ap2 - 15360, 15360 - ap2)
    ensures UpzeroTap(b, di, dif)
            == (b * 32640) / 0x8000
               + (if dif == 0 then 0 else if Sign(di) == Sign(dif) then 128 else -128)
  {
  }

  // ---------- Against the formulas of section 3.6 of ITU-T G.722, over the rationals ----------

  /** The product of two signs, zero counting as positive. */
  function Agree(x: int, y: int): int {
    if (x < 0) == (y < 0) then 1 else -1
  }

  lemma SignsAgree(x: int, y: int)
    requires Fits16(x) && Fits16(y)
    ensures if Sign(x) == Sign(y) then Agree(x, y) == 1 else Agree(x, y) == -1
  {}

  /** 128 times the second pole coefficient: a leak of 1/128, the sign product over two samples, and the
      limited first coefficient against the sign product over one sample. The unit is 2^-14. */
  function IdealPole2(a1: int, a2: int, p0: int, p1: int, p2: int): int {
    Clamp(127 * a2 + 0x4000 * Agree(p0, p2) - Clamp(4 * a1, -0x8000, 0x8000) * Agree(p0, p1),
          -12288 * 128, 12288 * 128)
  }

  /** 256 times the first one: a leak of 1/256, the sign product, and the stability limit. */
  function IdealPole1(a1: int, ap2: int, p0: int, p1: int): int {
    Clamp(255 * a1 + 3 * 0x4000 * Agree(p0, p1), 256 * (ap2 - 15360), 256 * (15360 - ap2))
  }

  /** 256 times a zero coefficient: a leak of 1/256, and the sign product unless the difference is zero. */
  function IdealZero(b: int, di: int, dif: int): int {
    255 * b + (if dif == 0 then 0 else 2 * 0x4000 * Agree(di, dif))
  }

  // On every reachable state the fixed-point updates are the formulas of the standard, rounded down: by less
  // than one unit in the last place for the first pole and the zeros, by less than two for the second pole,
  // whose two terms are rounded separately.

  lemma SecondPoleFollowsStandard(a1: int, a2: int, p0: int, p1: int, p2: int)
    requires PoleStable(a1, a2) && Fits16(p0) && Fits16(p1) && Fits16(p2)
    ensures -256 < 128 * Uppol2(a1, a2, p0, p1, p2) - IdealPole2(a1, a2, p0, p1, p2) <= 0
  {
    hide Sign, Agree;
    SignsAgree(p0, p1);
    SignsAgree(p0, p2);
  }

  /** One unit would not do for the second pole. */
  lemma SecondPoleRoundsTwice()
    ensures PoleStable(8192, 1)
    ensures 128 * Uppol2(8192, 1, 0, -1, 0) - IdealPole2(8192, 1, 0, -1, 0) == -255
  {}

  lemma FirstPoleFollowsStandard(a1: int, a2: int, ap2: int, p0: int, p1: int)
    requires PoleStable(a1, a2) && -12288 <= ap2 <= 12288 && Fits16(p0) && Fits16(p1)
    ensures -256 < 256 * Uppol1(a1, ap2, p0, p1) - IdealPole1(a1, ap2, p0, p1) <= 0
  {
    hide Sign, Agree;
    SignsAgree(p0, p1);
  }

  lemma ZerosFollowStandard(b: int, di: int, dif: int)
    requires Fits16(b) && Fits16(di) && Fits16(dif)
    ensures -256 < 256 * UpzeroTap(b, di, dif) - IdealZero(b, di, dif) <= 0
  {
    hide Sign, Agree;
    SignsAgree(di, dif);
  }

  /** 0x8000 times the pole-section prediction: each coefficient on its own reconstructed sample, limited. */
  function IdealPoles(a1: int, a2: int, r1: int, r2: int): int {
    Clamp(a1 * Sat(2 * r1) + a2 * Sat(2 * r2), -0x8000 * 0x8000, 0x7fff * 0x8000)
  }

  lemma PolesFollowStandard(a1: int, a2: int, r1: int, r2: int)
    ensures -0x1_0000 < 0x8000 * Filtep(a1, a2, r1, r2) - IdealPoles(a1, a2, r1, r2) <= 0
  {
    hide Sat;
    var x, y := a1 * Sat(2 * r1), a2 * Sat(2 * r2);
    SumOfQuotients(x, y);
    SatIsClamp(x / 0x8000 + y / 0x8000);
  }

  lemma SatIsClamp(x: int)
    ensures Sat(x) == Clamp(x, -0x8000, 0x7fff)
  {}

  lemma SumOfQuotients(x: int, y: int)
    ensures -0x1_0000 < 0x8000 * (x / 0x8000 + y / 0x8000) - (x + y) <= 0
  {}

  /** The taps from k on, without rounding. */
  function Dot(b: seq<int>, d: seq<int>, k: nat): int
    requires |b| == |d| && k <= |b|
    decreases |b| - k
  {
    if k == |b| then 0 else Dot(b, d, k + 1) + b[k] * Sat(2 * d[k])
  }

  /** The zero-section sum is the inner product of coefficients and past differences; each tap loses less
      than one unit. */
  lemma {:induction false} ZeroSumIsDot(b: seq<int>, d: seq<int>, k: nat)
    requires |b| == |d| && k <= |b|
    ensures 0 <= Dot(b, d, k) - 0x8000 * ZeroSum(b, d, k) <= 0x7fff * (|b| - k)
    decreases |b| - k
  {
    hide Sat;
    if k < |b| {
      ZeroSumIsDot(b, d, k + 1);
      Floor15(b[k] * Sat(2 * d[k]));
    }
  }

  lemma Floor15(x: int)
    ensures 0 <= x - 0x8000 * (x / 0x8000) <= 0x7fff
  {}
}
