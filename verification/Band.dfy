/** The band record both codec contexts hold twice, and block 4 as the C code runs it on that record:
    in place, one field and one array cell at a time, in 32-bit ints. */
module SubBand {
  import opened FixedPoint
  import opened Tables
  import opened StepSize
  import P = Predictor

  class Band {
    var s: int32
    var sp: int32
    var sz: int32
    const r: array<int32>
    const a: array<int32>
    const ap: array<int32>
    const p: array<int32>
    const d: array<int32>
    const b: array<int32>
    const bp: array<int32>
    const sg: array<int32>
    var nb: int32
    var det: int32

    ghost const Repr: set<object> := {this, r, a, ap, p, d, b, bp, sg}

    ghost predicate Shape() {
      && r.Length == a.Length == ap.Length == p.Length == 3
      && d.Length == b.Length == bp.Length == sg.Length == 7
      && r != a && r != ap && r != p && a != ap && a != p && ap != p
      && d != b && d != bp && d != sg && b != bp && b != sg && bp != sg
    }

    ghost function State(): P.BandState
      requires Shape()
      reads this, r, a, p, d, b
    {
      P.RawBand(s, sp, sz, r[1], r[2], p[1], p[2], a[1], a[2], d[1..], b[1..], nb, det)
    }

    ghost predicate Valid()
      reads this, r, a, p, d, b
    {
      Shape() && P.Stable(State())
    }

    /** `memset` to zero, then the initial step size. */
    constructor (det0: int32)
      ensures Valid() && fresh(Repr)
      ensures State() == P.Fresh(det0)
    {
      var r3 := Zeros(3);
      var a3 := Zeros(3);
      var ap3 := Zeros(3);
      var p3 := Zeros(3);
      var d7 := Zeros(7);
      var b7 := Zeros(7);
      var bp7 := Zeros(7);
      var sg7 := Zeros(7);
      s, sp, sz, nb, det := 0, 0, 0, 0, det0;
      r, a, ap, p, d, b, bp, sg := r3, a3, ap3, p3, d7, b7, bp7, sg7;
      new;
      assert d[1..] == P.ZEROS && b[1..] == P.ZEROS;
    }

    /** LOGSCL / LOGSCH. */
    method UpdateLogStep(increment: int32, limit: int32)
      requires Shape() && 0 <= nb <= HIGH_LIMIT && -214 <= increment <= 3042 && 0 <= limit <= HIGH_LIMIT
      modifies this`nb
      ensures nb == NextNb(old(nb), increment, limit)
    {
      var wd: int32 := nb * 127;
      nb := wd / 128 + increment;
      if nb < 0 {
        nb := 0;
      } else if nb > limit {
        nb := limit;
      }
    }

    /** SCALEL / SCALEH. */
    method UpdateStep(shift: int32)
      requires Shape() && (shift == LOW_SHIFT || shift == HIGH_SHIFT) && 0 <= nb <= 2048 * (shift + 1)
      modifies this`det
      ensures det == Scale(nb, shift)
    {
      var wd1: int32 := nb / 64 % 32;
      var wd2: int32 := shift - nb / 2048;
      var wd3: int32;
      assert -1 <= wd2 <= 10 && Pow2(1) == 2;
      if wd2 < 0 {
        wd3 := Ilb(wd1) * Pow2(-wd2);
      } else {
        QuotientShrinks(Ilb(wd1), Pow2(wd2));
        wd3 := Ilb(wd1) / Pow2(wd2);
      }
      det := wd3 * 4;
    }

    method Block4(dif: int32)
      requires Valid() && Fits16(dif)
      modifies Repr
      ensures Valid()
      ensures State() == P.Block4(old(State()), dif)
    {
      ghost var n := P.Block4(State(), dif);
      P.Block4Stable(State(), dif);
      Adapt(dif);
      Cells(State().b, State().d);
      Delaya();
      assert b[1..] == n.b;
      assert d[1..] == n.d;
      Cells(n.b, n.d);
      Predict();
    }

    /** FILTEP, FILTEZ and PREDIC on the shifted delay lines. */
    method Predict()
      requires Shape() && P.PoleStable(a[1], a[2]) && Fits16(r[1]) && Fits16(r[2])
      requires forall k :: 1 <= k < 7 ==> Fits16(d[k]) && Fits16(b[k])
      modifies this`sp, this`sz, this`s
      ensures sp == P.Filtep(a[1], a[2], r[1], r[2])
      ensures sz == Sat(P.ZeroSum(b[1..], d[1..], 0))
      ensures s == Sat(sp + sz)
    {
      Filtep();
      Filtez();
      s := Saturate(sp + sz);
    }

    /** RECONS to UPZERO: fills the scratch cells and leaves the state itself alone. */
    method Adapt(dif: int32)
      requires Valid() && Fits16(dif)
      modifies d, r, p, sg, ap, bp
      ensures State() == old(State())
      ensures var n := P.Block4(old(State()), dif);
        && d[0] == dif && r[0] == n.r1 && p[0] == n.p1 && ap[1] == n.a1 && ap[2] == n.a2
        && forall k :: 1 <= k < 7 ==> bp[k] == n.b[k - 1]
    {
      Cells(State().b, State().d);
      // RECONS, PARREC
      d[0] := dif;
      r[0] := Saturate(s + dif);
      p[0] := Saturate(sz + dif);
      Uppol2();
      Uppol1();
      Upzero(dif);
      assert d[1..] == old(d[1..]);
    }

    /** Cell k of the C arrays is entry k - 1 of the abstract delay lines. */
    lemma Cells(bs: seq<int>, ds: seq<int>)
      requires Shape() && b[1..] == bs && d[1..] == ds
      ensures forall k :: 1 <= k < 7 ==> b[k] == bs[k - 1] && d[k] == ds[k - 1]
    {
      assert forall k :: 1 <= k < 7 ==> b[k] == b[1..][k - 1] && d[k] == d[1..][k - 1];
    }

    method Uppol2()
      requires Shape() && P.PoleStable(a[1], a[2])
      requires Fits16(p[0]) && Fits16(p[1]) && Fits16(p[2])
      modifies sg, ap
      ensures ap[2] == P.Uppol2(a[1], a[2], p[0], p[1], p[2])
    {
      for i := 0 to 3
        invariant forall k :: 0 <= k < i ==> sg[k] == P.Sign(p[k])
      {
        sg[i] := Shr15(p[i]);
      }
      var wd1: int32 := Saturate(a[1] * 4);
      var wd2: int32 := if sg[0] == sg[1] then -wd1 else wd1;
      if wd2 > 0x7fff {
        wd2 := 0x7fff;
      }
      var wd3: int32 := wd2 / 128 + (if sg[0] == sg[2] then 128 else -128);
      wd3 := wd3 + Shr15(a[2] * 32512);
      if wd3 > 12288 {
        wd3 := 12288;
      } else if wd3 < -12288 {
        wd3 := -12288;
      }
      ap[2] := wd3;
    }

    method Uppol1()
      requires Shape() && P.PoleStable(a[1], a[2]) && -12288 <= ap[2] <= 12288
      modifies sg, ap
      ensures ap[1] == P.Uppol1(a[1], ap[2], p[0], p[1])
      ensures ap[2] == old(ap[2])
    {
      sg[0] := Shr15(p[0]);
      sg[1] := Shr15(p[1]);
      var wd1: int32 := if sg[0] == sg[1] then 192 else -192;
      var wd2: int32 := Shr15(a[1] * 32640);
      ap[1] := Saturate(wd1 + wd2);
      var wd3: int32 := Saturate(15360 - ap[2]);
      if ap[1] > wd3 {
        ap[1] := wd3;
      } else if ap[1] < -wd3 {
        ap[1] := -wd3;
      }
    }

    method Upzero(dif: int32)
      requires Shape()
      requires forall k :: 1 <= k < 7 ==> Fits16(b[k])
      modifies sg, bp
      ensures forall k :: 1 <= k < 7 ==> bp[k] == P.UpzeroTap(b[k], d[k], dif)
    {
      var wd1: int32 := if dif == 0 then 0 else 128;
      sg[0] := Shr15(dif);
      for i := 1 to 7
        invariant sg[0] == P.Sign(dif)
        invariant forall k :: 1 <= k < i ==> bp[k] == P.UpzeroTap(b[k], d[k], dif)
      {
        sg[i] := Shr15(d[i]);
        var wd2: int32 := if sg[i] == sg[0] then wd1 else -wd1;
        var wd3: int32 := Shr15(b[i] * 32640);
        bp[i] := Saturate(wd2 + wd3);
      }
    }

    /** Shifts every delay line by one place and takes over the new coefficients. */
    method Delaya()
      requires Shape()
      modifies r, p, a, d, b
      ensures r[1] == old(r[0]) && r[2] == old(r[1])
      ensures p[1] == old(p[0]) && p[2] == old(p[1])
      ensures a[1] == ap[1] && a[2] == ap[2]
      ensures forall k :: 1 <= k < 7 ==> d[k] == old(d[k - 1]) && b[k] == bp[k]
    {
      var i := 6;
      while i > 0
        modifies d, b
        invariant 0 <= i <= 6
        invariant forall k :: 0 <= k <= i ==> d[k] == old(d[k])
        invariant forall k :: i < k < 7 ==> d[k] == old(d[k - 1]) && b[k] == bp[k]
      {
        d[i] := d[i - 1];
        b[i] := bp[i];
        i := i - 1;
      }
      i := 2;
      while i > 0
        modifies r, p, a
        invariant 0 <= i <= 2
        invariant forall k :: 0 <= k <= i ==> r[k] == old(r[k]) && p[k] == old(p[k])
        invariant forall k :: i < k < 3 ==> r[k] == old(r[k - 1]) && p[k] == old(p[k - 1]) && a[k] == ap[k]
      {
        r[i] := r[i - 1];
        p[i] := p[i - 1];
        a[i] := ap[i];
        i := i - 1;
      }
    }

    method Filtep()
      requires Shape() && P.PoleStable(a[1], a[2]) && Fits16(r[1]) && Fits16(r[2])
      modifies this`sp
      ensures sp == P.Filtep(a[1], a[2], r[1], r[2])
    {
      var wd1: int32 := Saturate(r[1] + r[1]);
      ProductFits(a[1], wd1);
      wd1 := Shr15(a[1] * wd1);
      var wd2: int32 := Saturate(r[2] + r[2]);
      ProductFits(a[2], wd2);
      wd2 := Shr15(a[2] * wd2);
      sp := Saturate(wd1 + wd2);
    }

    method Filtez()
      requires Shape()
      requires forall k :: 1 <= k < 7 ==> Fits16(d[k]) && Fits16(b[k])
      modifies this`sz
      ensures sz == Sat(P.ZeroSum(b[1..], d[1..], 0))
    {
      sz := 0;
      var i := 6;
      while i > 0
        invariant 0 <= i <= 6
        invariant sz == P.ZeroSum(b[1..], d[1..], i)
        invariant -0x8000 * (6 - i) <= sz <= 0x8000 * (6 - i)
      {
        var wd1: int32 := Saturate(d[i] + d[i]);
        ProductFits(b[i], wd1);
        sz := sz + Shr15(b[i] * wd1);
        i := i - 1;
      }
      sz := Saturate(sz);
    }
  }

  method Zeros(n: nat) returns (z: array<int32>)
    ensures fresh(z) && z.Length == n && forall k :: 0 <= k < n ==> z[k] == 0
  {
    z := new int32[n](_ => 0);
  }

  /** The arrays and bands of a zeroed codec context, and their initial step sizes. */
  method FreshParts() returns (history: array<int32>, band0: Band, band1: Band)
    ensures fresh(history) && fresh(band0.Repr) && fresh(band1.Repr)
    ensures history !in band0.Repr && history !in band1.Repr && band0.Repr !! band1.Repr
    ensures history.Length == 24 && forall k :: 0 <= k < 24 ==> history[k] == 0
    ensures band0.Valid() && band0.State() == P.Fresh(32)
    ensures band1.Valid() && band1.State() == P.Fresh(8)
  {
    hide P.Stable, P.Fresh;
    history := Zeros(24);
    band0 := new Band(32);
    band1 := new Band(8);
  }
}
