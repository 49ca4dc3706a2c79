/** The low-band quantizer (QUANTL) against the inverse quantizers of the three rates. */
module Quantizer {
  import opened FixedPoint
  import opened Tables

  /** Decision level i for the step size `det`. */
  function Threshold(i: int, det: int): int
    requires 0 <= i < 32
  {
    Q6(i) * det / 0x1000
  }

  /** The distance from zero the search works on: -1 and 0 are the same distance. */
  function Magnitude(el: int): int {
    if el >= 0 then el else -(el + 1)
  }

  /** So each distance is that of one difference on either side, d above zero and -(d + 1) below it. */
  lemma TwoDifferences(el: int, d: nat)
    ensures Magnitude(el) == d <==> el == d || el == -(d + 1)
  {}

  /** The linear search of QUANTL, started at index i. */
  function Search(wd: int, det: int, i: int): (r: int)
    requires 1 <= i <= 30
    ensures i <= r <= 30
    decreases 30 - i
  {
    if i == 30 || wd < Threshold(i, det) then i else Search(wd, det, i + 1)
  }

  function SearchIndex(el: int, det: int): (i: int)
    ensures 1 <= i <= 30
  {
    Search(Magnitude(el), det, 1)
  }

  function LowCode(el: int, det: int): (ilow: int)
    ensures 4 <= ilow < 64
  {
    var i := SearchIndex(el, det);
    if el < 0 then Iln(i) else Ilp(i)
  }

  predicate IsRate(bits: int) {
    6 <= bits <= 8
  }

  /** `x >> (8 - bits_per_sample)`: what a rate keeps of an 8-bit code or of its low-band part. */
  function Truncate(x: int, bits: int): int
    requires IsRate(bits)
  {
    if bits == 8 then x else if bits == 7 then x / 2 else x / 4
  }

  /** Size of the low-band inverse table of a rate. */
  function Levels(bits: int): int
    requires IsRate(bits)
  {
    if bits == 8 then 64 else if bits == 7 then 32 else 16
  }

  /** INVQBL: what the decoder adds to its prediction for the low-band index of a code. */
  function Inverse(index: int, bits: int): (q: int)
    requires IsRate(bits) && 0 <= index < Levels(bits)
    ensures -24808 <= q <= 24808
  {
    if bits == 8 then Qm6(index) else if bits == 7 then Qm5(index) else Qm4(index)
  }

  lemma TruncateInTable(ilow: int, bits: int)
    requires IsRate(bits) && 0 <= ilow < 64
    ensures 0 <= Truncate(ilow, bits) < Levels(bits)
  {}

  /** The difference the decoder reconstructs for the difference `el` at the encoder. */
  function Requantized(el: int, det: int, bits: int): int
    requires IsRate(bits)
  {
    TruncateInTable(LowCode(el, det), bits);
    det * Inverse(Truncate(LowCode(el, det), bits), bits) / 0x8000
  }

  // ---------- The search finds the one cell that contains the magnitude ----------

  predicate InCell(wd: int, det: int, i: int)
    requires 1 <= i <= 30
  {
    Threshold(i - 1, det) <= wd && (i < 30 ==> wd < Threshold(i, det))
  }

  lemma {:induction false} ThresholdMonotone(i: int, j: int, det: int)
    requires 0 <= i <= j <= 29 && det >= 0
    ensures Threshold(i, det) <= Threshold(j, det)
    decreases j - i
  {
    if i < j {
      MulMono(Q6(i), Q6(i + 1), det);
      DivMono(Q6(i) * det, Q6(i + 1) * det, 0x1000);
      ThresholdMonotone(i + 1, j, det);
    }
  }

  lemma {:induction false} SearchFindsCell(wd: int, det: int, i: int)
    requires 1 <= i <= 30 && Threshold(i - 1, det) <= wd
    ensures InCell(wd, det, Search(wd, det, i))
    decreases 30 - i
  {
    hide Threshold;
    if i < 30 && wd >= Threshold(i, det) {
      SearchFindsCell(wd, det, i + 1);
    }
  }

  lemma CellIsUnique(wd: int, det: int, i: int, j: int)
    requires det >= 0 && 1 <= i <= 30 && 1 <= j <= 30
    requires InCell(wd, det, i) && InCell(wd, det, j)
    ensures i == j
  {
    if i < j {
      ThresholdMonotone(i, j - 1, det);
    } else if j < i {
      ThresholdMonotone(j, i - 1, det);
    }
  }

  /** QUANTL: the index is the one cell of the decision levels that holds the magnitude. */
  lemma SearchIndexCell(el: int, det: int, j: int)
    requires det >= 0 && 1 <= j <= 30
    ensures InCell(Magnitude(el), det, j) <==> j == SearchIndex(el, det)
  {
    assert Threshold(0, det) == 0;
    SearchFindsCell(Magnitude(el), det, 1);
    if InCell(Magnitude(el), det, j) {
      CellIsUnique(Magnitude(el), det, j, SearchIndex(el, det));
    }
  }

  // ---------- How the cells drive the step size ----------

  /** What cell i adds to the log step of the low band. */
  function CellIncrement(i: int): int
    requires 1 <= i <= 30
  {
    Wl(Rl42(Ilp(i) / 4))
  }

  /** The increment does not depend on the sign; it shrinks the step in the six inner cells and lets it grow
      in the others, the more the farther out. */
  lemma IncrementGrows(i: int, j: int)
    requires 1 <= i <= j <= 30
    ensures Wl(Rl42(Iln(i) / 4)) == CellIncrement(i) <= CellIncrement(j)
    ensures CellIncrement(i) < 0 <==> i <= 6
  {
    IncrementSides(i);
    IncrementForm(i);
    IncrementForm(j);
  }

  lemma IncrementSides(i: int)
    requires 1 <= i <= 30
    ensures Wl(Rl42(Iln(i) / 4)) == CellIncrement(i)
  {}

  lemma IncrementForm(i: int)
    requires 1 <= i <= 30
    ensures CellIncrement(i)
            == if i <= 2 then -60 else if i <= 6 then -30 else if i <= 10 then 58 else if i <= 14 then 172
               else if i <= 18 then 334 else if i <= 22 then 538 else if i <= 26 then 1198 else 3042
  {}

  /** In the high band the inner cells shrink the step and the outer ones let it grow, by the same on both
      sides. */
  lemma HighIncrements(ihigh: int)
    requires 0 <= ihigh < 4
    ensures Wh(Rh2(ihigh)) == if ihigh % 2 == 1 then -214 else 798
  {}

  /** Codes no encoder sends are taken for the smallest negative difference of their rate, and for its
      increment. */
  lemma UnsentCodes(index: int, bits: int)
    requires IsRate(bits) && 0 <= index < Truncate(4, bits)
    ensures Inverse(index, bits) == Inverse(Levels(bits) - 1, bits)
    ensures Rl42(0) == Rl42(15)
  {}

  // ---------- Reconstruction error ----------

  /** The cells whose codes a rate cannot tell apart from cell i are CellLow+1 .. CellHigh. */
  function CellHigh(i: int, bits: int): int {
    if bits == 8 then i
    else if bits == 7 then (i + 1) / 2 * 2
    else (i + 1) / 4 * 4 + 2
  }

  function CellLow(i: int, bits: int): int {
    if bits == 8 then i - 1
    else if bits == 7 then CellHigh(i, bits) - 2
    else if i <= 2 then 0 else CellHigh(i, bits) - 4
  }

  /** The last decision level above those cells; the overload cell has none of its own. */
  function CellTop(i: int, bits: int): int {
    if CellHigh(i, bits) <= 29 then CellHigh(i, bits) else 29
  }

  lemma CellBounds(i: int, bits: int)
    requires IsRate(bits) && 1 <= i <= 30
    ensures 0 <= CellLow(i, bits) < i <= CellHigh(i, bits) <= 30
    ensures CellLow(i, bits) <= CellTop(i, bits) <= 29
    ensures i <= 29 ==> i <= CellTop(i, bits)
  {}

  /** Width of the bounded cells the truncated code of cell i stands for. */
  function CellWidth(i: int, det: int, bits: int): int
    requires IsRate(bits) && 1 <= i <= 30
  {
    CellBounds(i, bits);
    Threshold(CellTop(i, bits), det) - Threshold(CellLow(i, bits), det)
  }

  /** The search codes in closed form: 62 - i above zero, 64 - i or 34 - i below it. */
  function Above(i: int): int {
    62 - i
  }

  function Below(i: int): int {
    if i <= 2 then 64 - i else 34 - i
  }

  lemma CodeForms(i: int)
    requires 1 <= i <= 30
    ensures Ilp(i) == Above(i) && Iln(i) == Below(i)
  {}

  /** Exactly the cells CellLow+1 .. CellHigh share the truncated code of cell i, on their side of
      zero; the two sides share a code only at 6 bits, around zero. */
  lemma CellsOfTruncatedCode(i: int, j: int, bits: int)
    requires IsRate(bits) && 1 <= i <= 30 && 1 <= j <= 30
    ensures Truncate(Above(i), bits) == Truncate(Above(j), bits) <==> CellLow(i, bits) < j <= CellHigh(i, bits)
    ensures Truncate(Below(i), bits) == Truncate(Below(j), bits) <==> CellLow(i, bits) < j <= CellHigh(i, bits)
    ensures Truncate(Below(i), bits) == Truncate(Above(j), bits) <==> (bits == 6 && i <= 2 && j <= 2)
  {
    if bits != 8 {
      CellGroups(i); CellGroups(j);
      if bits == 7 {
        SameGroup(i, j, 2);
      } else {
        SameGroup(i, j, 4);
      }
    }
  }

  lemma SameGroup(i: int, j: int, m: int)
    requires m == 2 || m == 4
    ensures (i + 1) / m == (j + 1) / m <==> (i + 1) / m * m <= j + 1 < (i + 1) / m * m + m
  {}

  lemma CellGroups(i: int)
    requires 1 <= i <= 30
    ensures Above(i) / 2 == 31 - (i + 1) / 2 && Below(i) / 2 == (if i <= 2 then 32 else 17) - (i + 1) / 2
    ensures Above(i) / 4 == 15 - (i + 1) / 4 && Below(i) / 4 == (if i <= 2 then 15 else 8) - (i + 1) / 4
  {}

  /** The value search index i stands for at a rate, above zero. */
  function Entry(i: int, bits: int): int
    requires IsRate(bits) && 1 <= i <= 30
  {
    TruncateInTable(Ilp(i), bits);
    Inverse(Truncate(Ilp(i), bits), bits)
  }

  // The three inverse tables are odd: the code below zero stands for minus the value above it.

  lemma Odd8(i: int)
    requires 1 <= i <= 30
    ensures Qm6(Below(i)) == -Qm6(Above(i))
  {}

  lemma Odd7(i: int)
    requires 1 <= i <= 30
    ensures Qm5(Below(i) / 2) == -Qm5(Above(i) / 2)
  {}

  lemma Odd6(i: int)
    requires 1 <= i <= 30
    ensures Qm4(Below(i) / 4) == -Qm4(Above(i) / 4)
  {}

  lemma EntryForms(i: int)
    requires 1 <= i <= 30
    ensures Entry(i, 8) == Qm6(Above(i))
    ensures Entry(i, 7) == Qm5(Above(i) / 2)
    ensures Entry(i, 6) == Qm4(Above(i) / 4)
  {
    CodeForms(i);
  }

  lemma InverseOfCode(el: int, det: int, bits: int)
    requires IsRate(bits)
    ensures var i := SearchIndex(el, det);
            Requantized(el, det, bits) == det * (if el < 0 then -Entry(i, bits) else Entry(i, bits)) / 0x8000
  {
    var i := SearchIndex(el, det);
    if el < 0 {
      CodeForms(i);
      EntryForms(i);
      Odd8(i); Odd7(i); Odd6(i);
    }
  }

  // Each inverse table entry below the overload cell lies inside the union of bounded cells it stands for.

  lemma TableAgrees8(i: int)
    requires 1 <= i <= 29
    ensures 8 * Q6(i - 1) <= Qm6(Above(i)) <= 8 * Q6(i)
  {}

  lemma TableAgrees7(i: int)
    requires 1 <= i <= 29
    ensures 8 * Q6(CellLow(i, 7)) <= Qm5(Above(i) / 2) <= 8 * Q6(CellTop(i, 7))
  {}

  lemma TableAgrees6(i: int)
    requires 1 <= i <= 29
    ensures 8 * Q6(CellLow(i, 6)) <= Qm4(Above(i) / 4) <= 8 * Q6(CellTop(i, 6))
  {}

  lemma TablesAgree(i: int, bits: int)
    requires IsRate(bits) && 1 <= i <= 29
    ensures 0 <= CellLow(i, bits) < i <= CellTop(i, bits) <= 29
    ensures 8 * Q6(CellLow(i, bits)) <= Entry(i, bits) <= 8 * Q6(CellTop(i, bits))
  {
    hide Qm6, Qm5, Qm4, Q6, Ilp, Truncate;
    CellBounds(i, bits);
    EntryForms(i);
    if bits == 8 {
      TableAgrees8(i);
    } else if bits == 7 {
      TableAgrees7(i);
    } else {
      TableAgrees6(i);
    }
  }

  /** Scaling by the step size carries a table cell over to the decision levels. */
  lemma ScaledCell(q: int, lo: int, hi: int, det: int)
    requires 0 <= lo <= 29 && 0 <= hi <= 29 && det >= 0
    requires 8 * Q6(lo) <= q <= 8 * Q6(hi)
    ensures Threshold(lo, det) <= det * q / 0x8000 <= Threshold(hi, det)
    ensures Threshold(lo, det) <= -(det * -q / 0x8000) <= Threshold(hi, det) + 1
  {
    MulMono(8 * Q6(lo), q, det);
    MulMono(q, 8 * Q6(hi), det);
    EightThresholds(Q6(lo), det);
    EightThresholds(Q6(hi), det);
    DivMono(8 * Q6(lo) * det, q * det, 0x8000);
    DivMono(q * det, 8 * Q6(hi) * det, 0x8000);
    NegativeProduct(det, q);
  }

  lemma NegativeProduct(det: int, q: int)
    ensures det * q == q * det && det * -q == -(q * det)
  {}

  lemma EightThresholds(q: int, det: int)
    ensures 8 * q * det / 0x8000 == q * det / 0x1000
  {
    assert 8 * q * det == 8 * (q * det);
  }

  predicate Within(x: int, y: int, tolerance: int) {
    -tolerance <= x - y <= tolerance
  }

  /** Outside the overload cell the reconstructed difference is off by at most the width of the bounded
      cells the truncated code stands for, also when that code stands for the overload cell too. */
  lemma ReconstructionError(el: int, det: int, bits: int)
    requires IsRate(bits) && det >= 0
    requires SearchIndex(el, det) <= 29
    ensures Within(Requantized(el, det, bits), el, CellWidth(SearchIndex(el, det), det, bits))
  {
    hide Requantized, Entry, LowCode, Threshold;
    var i := SearchIndex(el, det);
    var lo, hi := CellLow(i, bits), CellTop(i, bits);
    SearchIndexCell(el, det, i);
    InverseOfCode(el, det, bits);
    TablesAgree(i, bits);
    ScaledCell(Entry(i, bits), lo, hi, det);
    ThresholdMonotone(lo, i - 1, det);
    ThresholdMonotone(i, hi, det);
  }

  /** A step of at most 16384 leaves the overload cell far below the ends of the 16-bit range, and no code
      stands for more than 12405. */
  lemma OverloadReach(el: int, det: int, bits: int)
    requires IsRate(bits) && 0 <= det <= 16384
    ensures 0 <= CellWidth(30, det, bits) <= 3756
    ensures Threshold(29, det) <= 11676
    ensures -12405 <= Requantized(el, det, bits) <= 12405
    ensures Magnitude(el) >= 11676 ==> SearchIndex(el, det) == 30
  {
    CellBounds(30, bits);
    assert CellLow(30, bits) == (if bits == 8 then 29 else if bits == 7 then 28 else 26);
    assert CellWidth(30, det, bits) <= 3756;
    SearchIndexCell(el, det, 30);
    RequantizedBound(el, det, bits);
  }

  lemma RequantizedBound(el: int, det: int, bits: int)
    requires IsRate(bits) && 0 <= det <= 16384
    ensures -12405 <= Requantized(el, det, bits) <= 12405
  {
    hide Qm6, Qm5, Qm4, LowCode;
    TruncateInTable(LowCode(el, det), bits);
    var q := Inverse(Truncate(LowCode(el, det), bits), bits);
    MulMono(-24808, q, det);
    MulMono(q, 24808, det);
    DivMono(-24808 * 16384, det * q, 0x8000);
    DivMono(det * q, 24808 * 16384, 0x8000);
  }

  /** Every 16-bit difference that falls into cell i is reconstructed within the width of its cells. */
  ghost predicate AccurateCell(i: int, det: int, bits: int)
    requires IsRate(bits) && 1 <= i <= 30
  {
    forall el :: Fits16(el) && SearchIndex(el, det) == i ==>
                   Within(Requantized(el, det, bits), el, CellWidth(i, det, bits))
  }

  /** A cell is accurate at a rate if and only if it is not the overload cell. */
  lemma AccurateIff(i: int, det: int, bits: int)
    requires IsRate(bits) && 1 <= i <= 30 && 0 <= det <= 16384
    ensures AccurateCell(i, det, bits) <==> i <= 29
  {
    hide SearchIndex, Requantized, CellWidth;
    if i <= 29 {
      forall el | Fits16(el) && SearchIndex(el, det) == i
        ensures Within(Requantized(el, det, bits), el, CellWidth(i, det, bits))
      {
        ReconstructionError(el, det, bits);
      }
    } else {
      OverloadReach(32767, det, bits);
      assert SearchIndex(32767, det) == i && !Within(Requantized(32767, det, bits), 32767, CellWidth(i, det, bits));
    }
  }

  /** The decision level a code of the overload cell is reconstructed at or beyond: the last one, but the
      last but one at 48 kbit/s, where the code also stands for the three cells below. */
  function OverloadLevel(bits: int): int {
    if bits == 6 then 28 else 29
  }

  lemma OverloadEntries()
    ensures Entry(30, 8) == 24808 && Entry(30, 7) == 8 * Q6(29) && Entry(30, 6) == 8 * Q6(28)
  {
    EntryForms(30);
  }

  /** In the overload cell the decoder still lands at or beyond that level, on the right side; below
      64 kbit/s exactly on it, up to the rounding of negative values. */
  lemma OverloadSide(el: int, det: int, bits: int)
    requires IsRate(bits) && det >= 0 && SearchIndex(el, det) == 30
    ensures var level := Threshold(OverloadLevel(bits), det);
            && (if el < 0 then Requantized(el, det, bits) <= -level else Requantized(el, det, bits) >= level)
            && (bits != 8 ==> Within(Requantized(el, det, bits), if el < 0 then -level else level, 1))
  {
    hide SearchIndex, Requantized, Entry, LowCode;
    InverseOfCode(el, det, bits);
    OverloadEntries();
    var q, level := Entry(30, bits), Q6(OverloadLevel(bits));
    assert 8 * level <= q && (bits != 8 ==> q == 8 * level);
    MulMono(8 * level, q, det);
    EightThresholds(level, det);
    DivMono(8 * level * det, q * det, 0x8000);
    NegativeProduct(det, q);
  }

  // ---------- Sign and monotonicity ----------

  // Table entries never decrease as the magnitude grows, at any rate.

  lemma TableGrows8(i: int)
    requires 1 <= i <= 29
    ensures 0 <= Qm6(Above(i)) <= Qm6(Above(i + 1))
  {}

  lemma TableGrows7(i: int)
    requires 1 <= i <= 29
    ensures 0 <= Qm5(Above(i) / 2) <= Qm5(Above(i + 1) / 2)
  {}

  lemma TableGrows6(i: int)
    requires 1 <= i <= 29
    ensures 0 <= Qm4(Above(i) / 4) <= Qm4(Above(i + 1) / 4)
  {}

  lemma EntryStep(i: int, bits: int)
    requires IsRate(bits) && 1 <= i <= 29
    ensures 0 <= Entry(i, bits) <= Entry(i + 1, bits)
  {
    hide Qm6, Qm5, Qm4, Ilp, Truncate;
    EntryForms(i);
    EntryForms(i + 1);
    if bits == 8 {
      TableGrows8(i);
    } else if bits == 7 {
      TableGrows7(i);
    } else {
      TableGrows6(i);
    }
  }

  lemma {:induction false} EntryMonotone(i: int, j: int, bits: int)
    requires IsRate(bits) && 1 <= i <= j <= 30
    ensures 0 <= Entry(i, bits) <= Entry(j, bits)
    decreases j - i
  {
    EntryStep(if i < 30 then i else 29, bits);
    if i < j {
      EntryMonotone(i + 1, j, bits);
    }
  }

  lemma {:induction false} SearchMonotone(wd: int, wd': int, det: int, i: int)
    requires wd <= wd' && 1 <= i <= 30
    ensures Search(wd, det, i) <= Search(wd', det, i)
    decreases 30 - i
  {
    hide Threshold;
    if i < 30 && wd >= Threshold(i, det) {
      SearchMonotone(wd, wd', det, i + 1);
    }
  }

  /** The reconstructed difference has the sign of the difference. */
  lemma RequantizedSign(el: int, det: int, bits: int)
    requires IsRate(bits) && det >= 0
    ensures el >= 0 ==> Requantized(el, det, bits) >= 0
    ensures el < 0 ==> Requantized(el, det, bits) <= 0
  {
    var i := SearchIndex(el, det);
    InverseOfCode(el, det, bits);
    EntryMonotone(i, i, bits);
    MulMono(0, Entry(i, bits), det);
    NegativeProduct(det, Entry(i, bits));
  }

  /** Quantizing and reconstructing never swaps two differences, at any rate. */
  lemma RequantizedMonotone(el: int, el': int, det: int, bits: int)
    requires IsRate(bits) && det >= 0 && el <= el'
    ensures Requantized(el, det, bits) <= Requantized(el', det, bits)
  {
    hide Requantized, Entry, LowCode, Threshold;
    var i, j := SearchIndex(el, det), SearchIndex(el', det);
    InverseOfCode(el, det, bits);
    InverseOfCode(el', det, bits);
    if el < 0 <= el' {
      RequantizedSign(el, det, bits);
      RequantizedSign(el', det, bits);
    } else if el >= 0 {
      SearchMonotone(el, el', det, 1);
      EntryMonotone(i, j, bits);
      ScaleEntries(Entry(i, bits), Entry(j, bits), det);
    } else {
      SearchMonotone(Magnitude(el'), Magnitude(el), det, 1);
      EntryMonotone(j, i, bits);
      ScaleEntries(-Entry(i, bits), -Entry(j, bits), det);
    }
  }

  lemma ScaleEntries(q: int, q': int, det: int)
    requires q <= q' && det >= 0
    ensures det * q / 0x8000 <= det * q' / 0x8000
  {
    MulMono(q, q', det);
    DivMono(det * q, det * q', 0x8000);
  }
}
