/** Fixed-width integers, saturation, shifts and bit operations as the C sources use them. */
module FixedPoint {

  type int16 = x: int | -0x8000 <= x < 0x8000
  type int32 = x: int | -0x8000_0000 <= x < 0x8000_0000
  type uint8 = x: int | 0 <= x < 0x100
  type uint16 = x: int | 0 <= x < 0x1_0000
  type uint32 = x: int | 0 <= x < 0x1_0000_0000

  predicate Fits16(x: int) {
    -0x8000 <= x < 0x8000
  }

  function Clamp(x: int, lo: int, hi: int): int {
    if x > hi then hi else if x < lo then lo else x
  }

  /** The nearest 16-bit value, over the unbounded integers. */
  function Sat(x: int): int {
    Clamp(x, -0x8000, 0x7fff)
  }

  /** Two's complement narrowing, `(int16_t) x`. */
  function ToInt16(x: int): (r: int16)
    ensures Fits16(x) ==> r == x
    ensures (r - x) % 0x1_0000 == 0
  {
    (x + 0x8000) % 0x1_0000 - 0x8000
  }

  /** `saturate()`: narrow first, and clip only when narrowing changed the value. */
  function Saturate(amp: int32): (r: int16)
    ensures r == Sat(amp)
  {
    var amp16 := ToInt16(amp);
    if amp == amp16 then amp16 else if amp > 0x7fff then 0x7fff else -0x8000
  }

  /** `x >> 15` on a 32-bit int: floor division, also for negative values. */
  function Shr15(x: int32): (r: int32)
    ensures -0x1_0000 <= r < 0x1_0000
  {
    x / 0x8000
  }

  function Pow2(k: nat): (r: nat)
    ensures r >= 1
  {
    if k == 0 then 1 else 2 * Pow2(k - 1)
  }

  lemma {:induction false} Pow2Add(m: nat, n: nat)
    ensures Pow2(m + n) == Pow2(m) * Pow2(n)
  {
    if m > 0 {
      Pow2Add(m - 1, n);
    }
  }

  lemma {:induction false} PowMono(m: nat, n: nat)
    requires m <= n
    ensures Pow2(m) <= Pow2(n)
    decreases n - m
  {
    if m < n {
      PowMono(m, n - 1);
    }
  }

  lemma MulMono(x: int, y: int, m: int)
    requires x <= y && m >= 0
    ensures x * m <= y * m
  {}

  lemma DivMono(x: int, y: int, m: int)
    requires x <= y && m > 0
    ensures x / m <= y / m
  {
    var q, r := x / m, y / m;
    assert q * m <= x && y < r * m + m == (r + 1) * m;
    if q > r {
      MulMono(r + 1, q, m);
      assert false;
    }
  }

  lemma QuotientShrinks(x: int, m: int)
    requires x >= 0 && m >= 1
    ensures 0 <= x / m <= x
  {
    var q := x / m;
    assert x == q * m + x % m;
    if q < 0 {
      MulMono(q, -1, m);
    } else {
      MulMono(1, m, q);
    }
  }

  lemma HalveBoth(x: int, m: int)
    requires m > 0
    ensures (2 * x) / (2 * m) == x / m
  {
    var q := x / m;
    assert x == q * m + x % m;
    assert 2 * x == q * (2 * m) + 2 * (x % m);
    QuotientUnique(2 * x, 2 * m, q, 2 * (x % m));
  }

  lemma QuotientUnique(x: int, m: int, q: int, r: int)
    requires m > 0 && 0 <= r < m && x == q * m + r
    ensures x / m == q
  {
    var q' := x / m;
    assert x == q' * m + x % m;
    assert (q - q') * m == x % m - r;
    if q > q' {
      MulMono(1, q - q', m);
    } else if q < q' {
      MulMono(q - q', -1, m);
    }
  }

  lemma HalfQuotient(x: int, m: int)
    requires m > 0
    ensures 2 * (x / (2 * m)) <= x / m <= 2 * (x / (2 * m)) + 1
  {
    var q := x / (2 * m);
    var r := x % (2 * m);
    assert x == q * (2 * m) + r;
    if r < m {
      assert x == (2 * q) * m + r;
      QuotientUnique(x, m, 2 * q, r);
    } else {
      assert x == (2 * q + 1) * m + (r - m);
      QuotientUnique(x, m, 2 * q + 1, r - m);
    }
  }

  lemma ModUnique(x: int, m: int, q: int, r: int)
    requires m > 0 && 0 <= r < m && x == q * m + r
    ensures x % m == r
  {
    QuotientUnique(x, m, q, r);
  }

  lemma ModAdd(a: nat, b: nat, m: nat)
    requires m > 0
    ensures (a + b) % m == (a % m + b) % m
  {
    var r, q := (a % m + b) % m, (a % m + b) / m;
    assert a + b == (a / m + q) * m + r by {
      assert a == (a / m) * m + a % m && a % m + b == q * m + r;
      assert (a / m + q) * m == (a / m) * m + q * m;
    }
    ModUnique(a + b, m, a / m + q, r);
  }

  lemma ModDistinct(a: nat, b: nat, m: nat)
    requires a < b < a + m
    ensures a % m != b % m
  {
    if a % m == b % m {
      assert b - a == (b / m - a / m) * m by {
        assert a == (a / m) * m + a % m && b == (b / m) * m + b % m;
        assert (b / m - a / m) * m == (b / m) * m - (a / m) * m;
      }
      if b / m - a / m >= 1 {
        MulMono(1, b / m - a / m, m);
      } else {
        MulMono(b / m - a / m, 0, m);
      }
      assert false;
    }
  }

  /** A product of two 16-bit values always fits a 32-bit int. */
  lemma ProductFits(x: int, y: int)
    requires Fits16(x) && Fits16(y)
    ensures -0x4000_0000 <= x * y <= 0x4000_0000
  {
    if y >= 0 {
      MulMono(x, 0x8000, y);
      MulMono(-0x8000, x, y);
    } else {
      MulMono(x, 0x8000, -y);
      MulMono(-0x8000, x, -y);
      assert x * (-y) == -(x * y);
    }
  }

  /** Bitwise OR of two non-negative integers, digit by digit. */
  function BitOr(a: nat, b: nat): nat {
    if a == 0 then b
    else if b == 0 then a
    else (if a % 2 == 1 || b % 2 == 1 then 1 else 0) + 2 * BitOr(a / 2, b / 2)
  }

  /** OR-ing into bits that are still clear is addition. */
  lemma {:induction false} BitOrDisjoint(a: nat, b: nat, k: nat)
    requires a < Pow2(k)
    ensures BitOr(a, b * Pow2(k)) == a + b * Pow2(k)
  {
    if k == 0 || a == 0 || b == 0 {
      assert a == 0 || b == 0 || k == 0;
    } else {
      var q := b * Pow2(k - 1);
      assert b * Pow2(k) == 2 * q;
      BitOrDisjoint(a / 2, b, k - 1);
    }
  }
}
