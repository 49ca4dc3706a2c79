/** Step-size adaptation: LOGSCL/LOGSCH update the log step, SCALEL/SCALEH turn it into a step. */
module StepSize {
  import opened FixedPoint
  import opened Tables

  // `8 - (nb >> 11)` in the low band, `10 - (nb >> 11)` in the high one.
  const LOW_SHIFT := 8
  const HIGH_SHIFT := 10
  const LOW_LIMIT := 18432
  const HIGH_LIMIT := 22528

  function NextNb(nb: int, increment: int, limit: int): int {
    Clamp(nb * 127 / 128 + increment, 0, limit)
  }

  /** The update is a leak of 1/128 and the increment, limited, rounded down by less than one unit. */
  lemma LeakyUpdate(nb: int, increment: int, limit: int)
    requires limit >= 0
    ensures -128 < 128 * NextNb(nb, increment, limit) - Clamp(127 * nb + 128 * increment, 0, 128 * limit) <= 0
  {}

  /** The leak brings two log steps together: it takes 1/128 off their distance above 127, and never moves
      one past the other. */
  lemma LeakContracts(x: int, y: int, increment: int, limit: int)
    requires x <= y && limit >= 0
    ensures 0 <= 128 * (NextNb(y, increment, limit) - NextNb(x, increment, limit)) <= 127 * (y - x) + 127
  {}

  function Power(b: nat, n: nat): nat {
    if n == 0 then 1 else b * Power(b, n - 1)
  }

  /** The log step after some increments. */
  function NbAfter(nb: int, increments: seq<int>, limit: int): int {
    if increments == [] then nb
    else
      var n := |increments| - 1;
      NextNb(NbAfter(nb, increments[..n], limit), increments[n], limit)
  }

  /** So after n codes what is left of a distance, up to 127 units, has shrunk to (127/128)^n of it. */
  lemma {:induction false} Converges(x: int, y: int, increments: seq<int>, limit: int)
    requires x <= y && limit >= 0
    ensures var n, rest := |increments|, NbAfter(y, increments, limit) - NbAfter(x, increments, limit);
            0 <= rest && (rest <= 127 || Power(128, n) * (rest - 127) <= Power(127, n) * (y - x - 127))
  {
    hide NextNb;
    if increments != [] {
      var n := |increments| - 1;
      var before := NbAfter(y, increments[..n], limit) - NbAfter(x, increments[..n], limit);
      var rest := NbAfter(y, increments, limit) - NbAfter(x, increments, limit);
      Converges(x, y, increments[..n], limit);
      LeakContracts(NbAfter(x, increments[..n], limit), NbAfter(y, increments[..n], limit), increments[n], limit);
      if rest > 127 {
        var p, q := Power(128, n), Power(127, n);
        MulMono(128 * (rest - 127), 127 * (before - 127), p);
        assert 128 * (rest - 127) * p == (128 * p) * (rest - 127);
        assert 127 * (before - 127) * p == 127 * (p * (before - 127));
        assert 127 * (q * (y - x - 127)) == (127 * q) * (y - x - 127);
      }
    }
  }

  /** `x >> e`, or `x << -e` for a negative e. */
  function ShiftBy(x: int, e: int): int {
    if e < 0 then x * Pow2(-e) else x / Pow2(e)
  }

  /** `ilb[j]` moved to octave k. */
  function Level(shift: int, k: int, j: int): int
    requires 0 <= j < 32
  {
    ShiftBy(Ilb(j), shift - k)
  }

  function Scale(nb: int, shift: int): int {
    4 * Level(shift, nb / 2048, nb / 64 % 32)
  }

  lemma IlbMonotone(i: int, j: int)
    requires 0 <= i <= j < 32
    ensures Ilb(i) <= Ilb(j)
  {}

  /** An octave is a geometric series: each entry is the one before times 2093/2048, the 32nd root of two,
      to within 1.07 units; after 32 steps it has doubled. */
  lemma IlbGeometric(j: int)
    requires 0 <= j < 32
    ensures -2192 < 2093 * Ilb(j) - 2048 * (if j == 31 then 2 * Ilb(0) else Ilb(j + 1)) < 2192
  {}

  lemma ShiftMonotone(x: int, y: int, e: int)
    requires x <= y
    ensures ShiftBy(x, e) <= ShiftBy(y, e)
  {
    if e < 0 {
      MulMono(x, y, Pow2(-e));
    } else {
      DivMono(x, y, Pow2(e));
    }
  }

  /** Shifting by one place less doubles the result, up to the bit that is not dropped any more. */
  lemma ShiftDoubles(x: int, e: int)
    ensures 2 * ShiftBy(x, e) <= ShiftBy(x, e - 1) <= 2 * ShiftBy(x, e) + 1
    ensures ShiftBy(2 * x, e) == ShiftBy(x, e - 1)
  {
    if e <= 0 {
      assert Pow2(1 - e) == 2 * Pow2(-e);
      assert x * (2 * Pow2(-e)) == 2 * (x * Pow2(-e)) == (2 * x) * Pow2(-e);
    } else {
      assert Pow2(e) == 2 * Pow2(e - 1);
      HalveBoth(x, Pow2(e - 1));
      HalfQuotient(x, Pow2(e - 1));
    }
  }

  /** The top of one octave stays below the bottom of the next. */
  lemma OctaveStep(shift: int, k: int, j: int)
    requires 0 <= j < 32
    ensures Level(shift, k, j) <= Level(shift, k + 1, 0)
  {
    ShiftMonotone(Ilb(j), 2 * Ilb(0), shift - k);
    ShiftDoubles(Ilb(0), shift - k);
  }

  lemma {:induction false} OctaveClimb(shift: int, k: int, k': int, j: int, j': int)
    requires 0 <= j < 32 && 0 <= j' < 32
    requires k < k' || (k == k' && j <= j')
    ensures Level(shift, k, j) <= Level(shift, k', j')
    decreases k' - k
  {
    if k == k' {
      IlbMonotone(j, j');
      ShiftMonotone(Ilb(j), Ilb(j'), shift - k);
    } else {
      OctaveStep(shift, k, j);
      OctaveClimb(shift, k + 1, k', 0, j');
    }
  }

  /** A larger log step never gives a smaller step, also across the octave boundaries of the table. */
  lemma ScaleMonotone(nb: int, nb': int, shift: int)
    requires nb <= nb'
    ensures Scale(nb, shift) <= Scale(nb', shift)
  {
    assert nb / 64 == 32 * (nb / 2048) + nb / 64 % 32;
    assert nb' / 64 == 32 * (nb' / 2048) + nb' / 64 % 32;
    OctaveClimb(shift, nb / 2048, nb' / 2048, nb / 64 % 32, nb' / 64 % 32);
  }

  /** Adding one octave (2048) doubles the step, up to the unit the table shift drops. */
  lemma ScaleDoubles(nb: int, shift: int)
    ensures 2 * Scale(nb, shift) <= Scale(nb + 2048, shift) <= 2 * Scale(nb, shift) + 4
  {
    var k, j := nb / 2048, nb / 64 % 32;
    assert (nb + 2048) / 2048 == k + 1 && (nb + 2048) / 64 % 32 == j;
    ShiftDoubles(Ilb(j), shift - k);
  }

  lemma ScaleEnds()
    ensures Scale(0, LOW_SHIFT) == 32 && Scale(LOW_LIMIT, LOW_SHIFT) == 16384
    ensures Scale(0, HIGH_SHIFT) == 8 && Scale(HIGH_LIMIT, HIGH_SHIFT) == 16384
  {
    assert ShiftBy(2048, 8) == 8 && ShiftBy(2048, 10) == 2 && ShiftBy(2048, -1) == 4096;
    assert Level(8, 0, 0) == 8 && Level(10, 0, 0) == 2;
    assert Level(8, 9, 0) == 4096 && Level(10, 11, 0) == 4096;
  }

  /** The ranges of section 3.5: the step stays within [32, 16384] in the low band. */
  lemma LowStepRange(nb: int)
    requires 0 <= nb <= LOW_LIMIT
    ensures 32 <= Scale(nb, LOW_SHIFT) <= 16384
  {
    ScaleEnds();
    ScaleMonotone(0, nb, LOW_SHIFT);
    ScaleMonotone(nb, LOW_LIMIT, LOW_SHIFT);
  }

  /** In the high band it stays within [8, 16384]. */
  lemma HighStepRange(nb: int)
    requires 0 <= nb <= HIGH_LIMIT
    ensures 8 <= Scale(nb, HIGH_SHIFT) <= 16384
  {
    ScaleEnds();
    ScaleMonotone(0, nb, HIGH_SHIFT);
    ScaleMonotone(nb, HIGH_LIMIT, HIGH_SHIFT);
  }
}
