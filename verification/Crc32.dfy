/** The bit-serial CRC-32 behind the MAC address, against polynomial division over GF(2) (section 8 of
    RFC 1952), and the errors it is sure to detect. */
module Crc32 {
  import opened FixedPoint
  import opened BitStream

  const POLY: uint32 := 0xEDB8_8320

  // ---------- Exclusive or and and, digit by digit ----------

  function BitXor(a: nat, b: nat): nat {
    if a == 0 then b
    else if b == 0 then a
    else (a + b) % 2 + 2 * BitXor(a / 2, b / 2)
  }

  function BitAnd(a: nat, b: nat): nat {
    if a == 0 || b == 0 then 0
    else (if a % 2 == 1 && b % 2 == 1 then 1 else 0) + 2 * BitAnd(a / 2, b / 2)
  }

  lemma XorForm(a: nat, b: nat)
    ensures BitXor(a, b) == (a + b) % 2 + 2 * BitXor(a / 2, b / 2)
  {}

  lemma XorDigits(a: nat, b: nat)
    ensures BitXor(a, b) % 2 == (a + b) % 2 && BitXor(a, b) / 2 == BitXor(a / 2, b / 2)
  {
    hide BitXor;
    XorForm(a, b);
  }

  lemma DoublePow(k: nat)
    requires k > 0
    ensures Pow2(k) == 2 * Pow2(k - 1)
  {}

  lemma EvenAddend(a: nat, b: nat, p: nat)
    ensures (b + 2 * p) / 2 == b / 2 + p && (a + (b + 2 * p)) % 2 == (a + b) % 2
  {}

  lemma {:induction false} XorBound(a: nat, b: nat, k: nat)
    requires a < Pow2(k) && b < Pow2(k)
    ensures BitXor(a, b) < Pow2(k)
    ensures BitXor(a, b + Pow2(k)) == BitXor(a, b) + Pow2(k)
  {
    if k == 0 {
      assert Pow2(0) == 1 && a == 0 && b == 0;
      assert BitXor(0, 0) == 0 && BitXor(0, 1) == 1;
    } else {
      hide BitXor, Pow2;
      var p := Pow2(k - 1);
      DoublePow(k);
      XorBound(a / 2, b / 2, k - 1);
      XorForm(a, b);
      EvenAddend(a, b, p);
      XorForm(a, b + 2 * p);
    }
  }

  lemma {:induction false} XorCommutes(a: nat, b: nat)
    ensures BitXor(a, b) == BitXor(b, a)
  {
    if a > 0 && b > 0 {
      XorCommutes(a / 2, b / 2);
    }
  }

  lemma {:induction false} XorAssociates(a: nat, b: nat, c: nat)
    ensures BitXor(BitXor(a, b), c) == BitXor(a, BitXor(b, c))
    decreases a + b + c
  {
    if a > 0 && b > 0 && c > 0 {
      XorDigits(a, b);
      XorDigits(b, c);
      XorAssociates(a / 2, b / 2, c / 2);
      SameDigits(BitXor(BitXor(a, b), c), BitXor(a, BitXor(b, c)), a, b, c);
    }
  }

  lemma SameDigits(x: nat, y: nat, a: nat, b: nat, c: nat)
    requires x == BitXor(BitXor(a, b), c) && y == BitXor(a, BitXor(b, c))
    requires BitXor(BitXor(a / 2, b / 2), c / 2) == BitXor(a / 2, BitXor(b / 2, c / 2))
    ensures x == y
  {
    hide BitXor;
    XorDigits(a, b); XorDigits(b, c);
    XorDigits(BitXor(a, b), c); XorDigits(a, BitXor(b, c));
    SameParity(BitXor(a, b), BitXor(b, c), a, b, c);
    assert x / 2 == y / 2 && x % 2 == y % 2;
  }

  lemma SameParity(ab: nat, bc: nat, a: nat, b: nat, c: nat)
    requires ab % 2 == (a + b) % 2 && bc % 2 == (b + c) % 2
    ensures (ab + c) % 2 == (a + bc) % 2
  {}

  lemma ParityOfSum(x: nat, y: nat)
    ensures (x % 2 + y) % 2 == (x + y) % 2
  {}

  lemma {:induction false} XorSelf(a: nat)
    ensures BitXor(a, a) == 0
  {
    if a > 0 {
      XorSelf(a / 2);
    }
  }

  lemma XorCancels(a: nat, b: nat)
    ensures BitXor(BitXor(a, b), b) == a
  {
    XorAssociates(a, b, b);
    XorSelf(b);
  }

  lemma XorExchange(a: nat, b: nat, c: nat, d: nat)
    ensures BitXor(BitXor(a, b), BitXor(c, d)) == BitXor(BitXor(a, c), BitXor(b, d))
  {
    hide BitXor;
    XorAssociates(a, b, BitXor(c, d)); XorAssociates(b, c, d);
    XorCommutes(b, c);
    XorAssociates(c, b, d); XorAssociates(a, c, BitXor(b, d));
  }

  lemma XorZero(a: nat, b: nat)
    ensures BitXor(a, b) == 0 <==> a == b
  {
    XorSelf(a);
    if BitXor(a, b) == 0 {
      XorCancels(a, b);
    }
  }

  lemma {:induction false} AndOnes(a: nat, k: nat)
    requires a < Pow2(k)
    ensures BitAnd(a, Pow2(k) - 1) == a
  {
    if k > 0 && a > 0 {
      AndOnes(a / 2, k - 1);
      assert (Pow2(k) - 1) / 2 == Pow2(k - 1) - 1;
    }
  }

  // ---------- The program ----------

  lemma Pow2Word()
    ensures Pow2(31) == 0x8000_0000 && Pow2(32) == 0x1_0000_0000
  {
    assert Pow2(8) == 0x100;
    Pow2Add(8, 8);
    Pow2Add(16, 16);
    assert 2 * Pow2(31) == Pow2(32);
  }

  lemma WordXor(a: uint32, b: uint32)
    ensures BitXor(a, b) < 0x1_0000_0000
  {
    Pow2Word();
    XorBound(a, b, 32);
  }

  /** One step of the shift register: a halving, and an addition of the polynomial if a one falls out. */
  function BitStep(crc: uint32): uint32 {
    WordXor(crc / 2, POLY);
    if crc % 2 == 1 then BitXor(crc / 2, POLY) else crc / 2
  }

  function Steps(crc: uint32, n: nat): uint32
    decreases n
  {
    if n == 0 then crc else Steps(BitStep(crc), n - 1)
  }

  /** `-(crc & 1)` on a 32-bit unsigned int. */
  function Mask(crc: uint32): uint32 {
    (-(crc % 2)) % 0x1_0000_0000
  }

  lemma AndZero(a: nat)
    ensures BitAnd(a, 0) == 0
  {}

  /** The branch-free form of the source is the branching step. */
  lemma MaskedStep(crc: uint32)
    ensures BitXor(crc / 2, BitAnd(POLY, Mask(crc))) == BitStep(crc)
  {
    hide Pow2, BitXor, BitAnd;
    Pow2Word();
    AndOnes(POLY, 32);
    AndZero(POLY);
    XorZeroRight(crc / 2);
    assert crc % 2 == 1 ==> Mask(crc) == 0xFFFF_FFFF;
  }

  function ByteStep(crc: uint32, byte: uint8): uint32 {
    WordXor(crc, byte);
    Steps(BitXor(crc, byte), 8)
  }

  function Feed(crc: uint32, data: seq<uint8>): uint32 {
    if data == [] then crc else ByteStep(Feed(crc, data[..|data| - 1]), data[|data| - 1])
  }

  function Crc(data: seq<uint8>): uint32 {
    0xFFFF_FFFF - Feed(0xFFFF_FFFF, data)
  }

  lemma {:induction false} StepsBack(crc: uint32, n: nat)
    ensures Steps(crc, n + 1) == BitStep(Steps(crc, n))
    decreases n
  {
    hide BitStep;
    if n > 0 {
      StepsBack(BitStep(crc), n - 1);
    }
  }

  /** `crc32b`. */
  method Crc32b(data: array<uint8>, len0: nat) returns (r: uint32)
    requires len0 <= data.Length
    ensures r == Crc(data[..len0])
  {
    hide BitStep, BitXor;
    var i, len := 0, len0;
    var crc: uint32 := 0xFFFF_FFFF;
    while len > 0
      invariant 0 <= len && i == len0 - len
      invariant crc == Feed(0xFFFF_FFFF, data[..i])
    {
      len := len - 1;
      var byte := data[i];
      WordXor(crc, byte);
      crc := BitXor(crc, byte);
      ghost var start := crc;
      var j := 7;
      while j >= 0
        invariant -1 <= j <= 7
        invariant crc == Steps(start, 7 - j)
      {
        var mask := Mask(crc);
        MaskedStep(crc);
        StepsBack(start, 7 - j);
        crc := BitXor(crc / 2, BitAnd(POLY, mask));
        j := j - 1;
      }
      assert data[..i + 1][..i] == data[..i];
      i := i + 1;
    }
    r := 0xFFFF_FFFF - crc;
  }

  // ---------- A step is linear and reversible ----------

  lemma BitStepLinear(a: uint32, b: uint32)
    ensures BitXor(a, b) < 0x1_0000_0000
    ensures BitStep(BitXor(a, b)) == BitXor(BitStep(a), BitStep(b))
  {
    hide BitXor;
    WordXor(a, b);
    XorDigits(a, b);
    ParityOfDigits(a, b);
    LinearCases(a / 2, b / 2, a % 2 == 1, b % 2 == 1);
  }

  lemma ParityOfDigits(a: nat, b: nat)
    ensures (a + b) % 2 == 1 <==> (a % 2 == 1) != (b % 2 == 1)
  {}

  lemma LinearCases(x: nat, y: nat, p: bool, q: bool)
    ensures BitXor(if p then BitXor(x, POLY) else x, if q then BitXor(y, POLY) else y)
            == if p != q then BitXor(BitXor(x, y), POLY) else BitXor(x, y)
  {
    hide BitXor, POLY;
    if p && q {
      XorExchange(x, POLY, y, POLY);
      XorSelf(POLY);
      XorZeroRight(BitXor(x, y));
    } else if q {
      XorAssociates(x, y, POLY);
    } else if p {
      XorAssociates(x, POLY, y);
      XorCommutes(y, POLY);
      XorAssociates(x, y, POLY);
    }
  }

  lemma XorZeroRight(a: nat)
    ensures BitXor(a, 0) == a
  {}

  /** Undoes a bit step: the top bit tells whether the polynomial was added. */
  function BitUnstep(crc: uint32): uint32 {
    if crc >= 0x8000_0000 then
      TopBit(crc);
      2 * BitXor(crc, POLY) + 1
    else 2 * crc
  }

  /** Adding the polynomial flips the top bit. */
  lemma TopBit(c: uint32)
    ensures c < 0x8000_0000 ==> 0x8000_0000 <= BitXor(c, POLY) < 0x1_0000_0000
    ensures c >= 0x8000_0000 ==> BitXor(c, POLY) < 0x8000_0000
  {
    Pow2Word();
    if c < 0x8000_0000 {
      XorBound(c, POLY - 0x8000_0000, 31);
    } else {
      var low, poly := c - 0x8000_0000, POLY - 0x8000_0000;
      XorBound(low, poly, 31);
      XorBound(poly, low, 31);
      XorCommutes(poly, low + 0x8000_0000);
      XorBound(BitXor(poly, low), 0, 31);
      XorCommutes(poly, low);
      XorCancels(BitXor(low, poly), 0x8000_0000);
      TopsCancel(low, poly);
    }
  }

  lemma TopsCancel(a: nat, b: nat)
    requires a < 0x8000_0000 && b < 0x8000_0000
    ensures BitXor(a + 0x8000_0000, b + 0x8000_0000) == BitXor(a, b)
  {
    hide BitXor;
    var top := 0x8000_0000;
    Pow2Word();
    XorBound(a, 0, 31);
    XorBound(b, 0, 31);
    XorZeroRight(a); XorZeroRight(b);
    XorExchange(a, top, b, top);
    XorSelf(top);
    XorZeroRight(BitXor(a, b));
  }

  /** Each bit step is a bijection on 32-bit words. */
  lemma BitStepBijective(crc: uint32)
    ensures BitUnstep(BitStep(crc)) == crc && BitStep(BitUnstep(crc)) == crc
  {
    hide BitXor;
    TopBit(crc / 2);
    TopBit(crc);
    XorCancels(crc / 2, POLY);
    XorCancels(crc, POLY);
  }

  lemma {:induction false} StepsLinear(a: uint32, b: uint32, n: nat)
    ensures BitXor(a, b) < 0x1_0000_0000
    ensures Steps(BitXor(a, b), n) == BitXor(Steps(a, n), Steps(b, n))
    decreases n
  {
    hide BitStep, BitXor;
    BitStepLinear(a, b);
    if n > 0 {
      StepsLinear(BitStep(a), BitStep(b), n - 1);
    }
  }

  lemma {:induction false} StepsZero(crc: uint32, n: nat)
    ensures Steps(crc, n) == 0 <==> crc == 0
    decreases n
  {
    hide BitXor;
    if n > 0 {
      BitStepBijective(crc);
      BitStepBijective(0);
      assert BitUnstep(0) == 0;
      StepsZero(BitStep(crc), n - 1);
    }
  }

  // ---------- Bit by bit ----------

  function BitIn(crc: uint32, bit: bool): uint32 {
    var v := if bit then 1 else 0;
    WordXor(crc, v);
    BitStep(BitXor(crc, v))
  }

  function FeedBits(crc: uint32, bits: seq<bool>): uint32
    decreases |bits|
  {
    if bits == [] then crc else FeedBits(BitIn(crc, bits[0]), bits[1..])
  }

  lemma {:induction false} FeedBitsAppend(crc: uint32, s: seq<bool>, t: seq<bool>)
    ensures FeedBits(crc, s + t) == FeedBits(FeedBits(crc, s), t)
    decreases |s|
  {
    hide BitIn;
    if s == [] {
      assert s + t == t;
    } else {
      FeedBitsAppend(BitIn(crc, s[0]), s[1..], t);
      assert (s + t)[1..] == s[1..] + t;
    }
  }

  /** Adding the lowest bit of a word and stepping is stepping and adding what is left of the word. */
  lemma BitInStep(crc: uint32, v: uint32)
    ensures BitXor(crc, v) < 0x1_0000_0000
    ensures BitStep(BitXor(crc, v)) == BitXor(BitIn(crc, v % 2 == 1), v / 2)
  {
    hide BitXor, POLY;
    WordXor(crc, v);
    WordXor(crc, v % 2);
    XorDigits(crc, v);
    XorDigits(crc, v % 2);
    XorZeroRight(crc / 2);
    XorAssociates(crc / 2, v / 2, POLY);
    XorCommutes(v / 2, POLY);
    XorAssociates(crc / 2, POLY, v / 2);
    ParityOfSum(v, crc);
  }

  /** A word of up to 32 bits may be added at once, before the steps, or bit by bit between them. */
  lemma {:induction false} WordIsBits(crc: uint32, v: uint32, n: nat)
    requires v < Pow2(n)
    ensures BitXor(crc, v) < 0x1_0000_0000
    ensures Steps(BitXor(crc, v), n) == FeedBits(crc, Bits(v, n))
    decreases n
  {
    hide BitStep, BitXor, BitIn;
    WordXor(crc, v);
    if n == 0 {
      XorZeroRight(crc);
    } else {
      BitInStep(crc, v);
      WordIsBits(BitIn(crc, v % 2 == 1), v / 2, n - 1);
      assert Bits(v, n)[1..] == Bits(v / 2, n - 1);
    }
  }

  /** The register after some bytes is the register after their bits, lowest bit of each byte first. */
  lemma {:induction false} FeedIsBits(crc: uint32, data: seq<uint8>)
    ensures Feed(crc, data) == FeedBits(crc, Flatten(data, 8))
  {
    hide Steps, FeedBits, Bits;
    if data == [] {
      NoBits(crc);
    } else {
      var n := |data| - 1;
      FeedIsBits(crc, data[..n]);
      Pow2Eight();
      WordIsBits(Feed(crc, data[..n]), data[n], 8);
      FeedBitsAppend(crc, Flatten(data[..n], 8), Bits(data[n], 8));
    }
  }

  lemma NoBits(crc: uint32)
    ensures FeedBits(crc, []) == crc
  {}

  // ---------- Polynomial division ----------

  /** `t` added, modulo 2, to the leading coefficients of `s`. */
  function AddLeading(s: seq<bool>, t: seq<bool>): (r: seq<bool>)
    requires |t| <= |s|
    ensures |r| == |s|
  {
    seq(|s|, i requires 0 <= i < |s| => if i < |t| then s[i] != t[i] else s[i])
  }

  /** The coefficients of a register, that of x^31 first: the register is reflected. */
  function Register(crc: uint32): (s: seq<bool>)
    ensures |s| == 32
  {
    Bits(crc, 32)
  }

  /** The generator x^32 + x^26 + ... + 1 without its leading coefficient. */
  function Generator(): (g: seq<bool>)
    ensures |g| == 32
  {
    Register(POLY)
  }

  /** Its four bytes, lowest bit first. */
  lemma GeneratorBytes()
    ensures Generator() == ((Bits(0x20, 8) + Bits(0x83, 8)) + Bits(0xB8, 8)) + Bits(0xED, 8)
  {
    hide Bits, Pow2;
    Pow2Eight();
    Pow2Add(8, 8);
    Pow2Add(16, 8);
    BitsAppend(0x20, 0x83, 8, 8);
    BitsAppend(0x8320, 0xB8, 16, 8);
    BitsAppend(0xB8_8320, 0xED, 24, 8);
  }

  lemma FirstBit(v: nat, n: nat)
    requires n > 0
    ensures Bits(v, n) == [v % 2 == 1] + Bits(v / 2, n - 1)
  {}

  lemma FourBits(v: nat, n: nat)
    requires n >= 4
    ensures Bits(v, n) == [v % 2 == 1, v / 2 % 2 == 1, v / 4 % 2 == 1, v / 8 % 2 == 1] + Bits(v / 16, n - 4)
  {
    hide Bits;
    FirstBit(v, n);
    FirstBit(v / 2, n - 1);
    FirstBit(v / 4, n - 2);
    FirstBit(v / 8, n - 3);
    assert v / 2 / 2 == v / 4 && v / 4 / 2 == v / 8 && v / 8 / 2 == v / 16;
  }

  lemma ByteBits()
    ensures Bits(0x20, 8) == [false, false, false, false, false, true, false, false]
    ensures Bits(0x83, 8) == [true, true, false, false, false, false, false, true]
    ensures Bits(0xB8, 8) == [false, false, false, true, true, true, false, true]
    ensures Bits(0xED, 8) == [true, false, true, true, false, true, true, true]
  {
    hide Bits;
    FourBits(0x20, 8); FourBits(0x2, 4);
    FourBits(0x83, 8); FourBits(0x8, 4);
    FourBits(0xB8, 8); FourBits(0xB, 4);
    FourBits(0xED, 8); FourBits(0xE, 4);
    assert forall v: nat :: |Bits(v, 0)| == 0;
  }

  /** The coefficients of the generator are those of section 8 of RFC 1952. */
  lemma GeneratorCoefficients(k: nat)
    requires k < 32
    ensures Generator()[31 - k] <==> k in {26, 23, 22, 16, 12, 11, 10, 8, 7, 5, 4, 2, 1, 0}
  {
    hide Bits, Generator;
    GeneratorBytes();
    ByteBits();
  }

  function Zeros(n: nat): (z: seq<bool>)
    ensures |z| == n
  {
    seq(n, _ => false)
  }

  /** Schoolbook remainder modulo the generator, leading coefficients first. */
  function Remainder(p: seq<bool>): (r: seq<bool>)
    requires |p| >= 32
    ensures |r| == 32
    decreases |p|
  {
    if |p| == 32 then p
    else Remainder(if p[0] then AddLeading(p[1..], Generator()) else p[1..])
  }

  /** A register on top of the message that is still to come, shifted up by 32: what is left to divide. */
  function Dividend(crc: uint32, rest: seq<bool>): (p: seq<bool>)
    ensures |p| == |rest| + 32
  {
    AddLeading(rest + Zeros(32), Register(crc))
  }

  lemma {:induction false} BitsOfXor(a: nat, b: nat, n: nat, i: nat)
    requires i < n
    ensures Bits(BitXor(a, b), n)[i] == (Bits(a, n)[i] != Bits(b, n)[i])
    decreases n
  {
    hide BitXor, Bits;
    XorDigits(a, b);
    if i == 0 {
      LowestBit(BitXor(a, b), n); LowestBit(a, n); LowestBit(b, n);
    } else {
      UpperBit(BitXor(a, b), n, i); UpperBit(a, n, i); UpperBit(b, n, i);
      BitsOfXor(a / 2, b / 2, n - 1, i - 1);
    }
  }

  lemma {:induction false} BitsOfHalf(a: nat, n: nat, i: nat)
    requires a < Pow2(n) && i < n
    ensures Bits(a / 2, n)[i] == (i + 1 < n && Bits(a, n)[i + 1])
    decreases n
  {
    if i > 0 {
      BitsOfHalf(a / 2, n - 1, i - 1);
    } else if n == 1 {
      assert a / 2 == 0;
    }
  }

  /** How one bit moves the coefficients: up by one place, minus the generator if x^32 has come out. */
  lemma BitInRegister(crc: uint32, bit: bool, i: nat)
    requires i < 32
    ensures Register(BitIn(crc, bit))[i]
            == ((i < 31 && Register(crc)[i + 1]) != ((Register(crc)[0] != bit) && Generator()[i]))
  {
    hide BitXor, Bits, POLY;
    var v := if bit then 1 else 0;
    WordXor(crc, v);
    XorDigits(crc, v);
    XorZeroRight(crc / 2);
    Pow2Word();
    BitsOfHalf(crc, 32, i);
    BitsOfXor(crc / 2, POLY, 32, i);
    LowestBit(crc, 32);
  }

  lemma UpperBit(a: nat, n: nat, i: nat)
    requires 0 < i < n
    ensures Bits(a, n)[i] == Bits(a / 2, n - 1)[i - 1]
  {}

  lemma LowestBit(a: nat, n: nat)
    requires n > 0
    ensures Bits(a, n)[0] == (a % 2 == 1)
  {}

  /** One bit is one line of the long division. */
  lemma BitInDivides(crc: uint32, bit: bool, rest: seq<bool>)
    ensures Remainder(Dividend(crc, [bit] + rest)) == Remainder(Dividend(BitIn(crc, bit), rest))
  {
    hide Register, Remainder, BitIn, Generator;
    var p := Dividend(crc, [bit] + rest);
    var next := if p[0] then AddLeading(p[1..], Generator()) else p[1..];
    var tail := rest + Zeros(32);
    assert ([bit] + rest) + Zeros(32) == [bit] + tail;
    var expected := Dividend(BitIn(crc, bit), rest);
    forall i | 0 <= i < |next|
      ensures next[i] == expected[i]
    {
      if i < 32 {
        BitInRegister(crc, bit, i);
      }
    }
    assert next == expected;
    RemainderStep(p);
  }

  lemma RemainderStep(p: seq<bool>)
    requires |p| > 32
    ensures Remainder(p) == Remainder(if p[0] then AddLeading(p[1..], Generator()) else p[1..])
  {}

  lemma {:induction false} DividesBits(crc: uint32, bits: seq<bool>)
    ensures Register(FeedBits(crc, bits)) == Remainder(Dividend(crc, bits))
    decreases |bits|
  {
    hide Register, Remainder, BitIn;
    if bits == [] {
      DividendOfNothing(crc);
    } else {
      DividesBits(BitIn(crc, bits[0]), bits[1..]);
      BitInDivides(crc, bits[0], bits[1..]);
      assert [bits[0]] + bits[1..] == bits;
    }
  }

  lemma DividendOfNothing(crc: uint32)
    ensures Remainder(Dividend(crc, [])) == Register(crc)
  {
    assert Dividend(crc, []) == Register(crc);
  }

  /** The CRC of any message is the complement of the remainder of the message, with its first 32 bits
      complemented and 32 zeros behind it, modulo the generator. */
  lemma CrcIsRemainder(data: seq<uint8>)
    ensures Register(0xFFFF_FFFF - Crc(data)) == Remainder(Dividend(0xFFFF_FFFF, Flatten(data, 8)))
  {
    FeedIsBits(0xFFFF_FFFF, data);
    DividesBits(0xFFFF_FFFF, Flatten(data, 8));
  }

  // ---------- Burst errors ----------

  function Difference(s: seq<bool>, t: seq<bool>): (d: seq<bool>)
    requires |s| == |t|
    ensures |d| == |s|
  {
    seq(|s|, i requires 0 <= i < |s| => s[i] != t[i])
  }

  lemma {:induction false} FeedBitsLinear(a: uint32, b: uint32, s: seq<bool>, t: seq<bool>)
    requires |s| == |t|
    ensures BitXor(a, b) < 0x1_0000_0000
    ensures BitXor(FeedBits(a, s), FeedBits(b, t)) == FeedBits(BitXor(a, b), Difference(s, t))
    decreases |s|
  {
    hide BitXor, BitIn;
    WordXor(a, b);
    if s != [] {
      BitInLinear(a, b, s[0], t[0]);
      FeedBitsLinear(BitIn(a, s[0]), BitIn(b, t[0]), s[1..], t[1..]);
      assert Difference(s, t)[1..] == Difference(s[1..], t[1..]);
    }
  }

  lemma BitInLinear(a: uint32, b: uint32, x: bool, y: bool)
    ensures BitXor(a, b) < 0x1_0000_0000
    ensures BitXor(BitIn(a, x), BitIn(b, y)) == BitIn(BitXor(a, b), x != y)
  {
    hide BitXor, BitStep;
    var v, w, z := if x then 1 else 0, if y then 1 else 0, if x != y then 1 else 0;
    WordXor(a, b); WordXor(a, v); WordXor(b, w);
    BitStepLinear(BitXor(a, v), BitXor(b, w));
    XorExchange(a, v, b, w);
    SingleBits(x, y);
  }

  lemma SingleBits(x: bool, y: bool)
    ensures BitXor(if x then 1 else 0, if y then 1 else 0) == if x != y then 1 else 0
  {}

  predicate AllZero(s: seq<bool>) {
    forall i :: 0 <= i < |s| ==> !s[i]
  }

  /** Zeros neither create nor hide a difference. */
  lemma {:induction false} ZerosKeep(crc: uint32, s: seq<bool>)
    requires AllZero(s)
    ensures FeedBits(crc, s) == 0 <==> crc == 0
    decreases |s|
  {
    hide BitXor;
    if s != [] {
      XorZeroRight(crc);
      StepsZero(crc, 1);
      assert Steps(crc, 1) == BitStep(crc);
      ZerosKeep(BitIn(crc, s[0]), s[1..]);
    }
  }

  /** The number a bit string stands for, lowest bit first. */
  function Value(s: seq<bool>): (v: nat)
    ensures v < Pow2(|s|)
    ensures Bits(v, |s|) == s
  {
    if s == [] then 0 else (if s[0] then 1 else 0) + 2 * Value(s[1..])
  }

  /** A difference confined to 32 bits always leaves a trace in the register. */
  lemma ShortBurstShows(s: seq<bool>)
    requires |s| <= 32 && !AllZero(s)
    ensures FeedBits(0, s) != 0
  {
    hide BitXor, Steps, FeedBits;
    var v := Value(s);
    Pow2Word();
    PowMono(|s|, 32);
    WordIsBits(0, v, |s|);
    assert BitXor(0, v) == v by { XorCommutes(0, v); XorZeroRight(v); }
    StepsZero(v, |s|);
    if v == 0 {
      BitsOfZero(|s|);
    }
  }

  lemma {:induction false} BitsOfZero(n: nat)
    ensures AllZero(Bits(0, n))
  {
    if n > 0 {
      BitsOfZero(n - 1);
    }
  }

  lemma NoDifference(s: seq<bool>, t: seq<bool>)
    requires |s| == |t|
    ensures AllZero(Difference(s, t)) <==> s == t
  {
    if AllZero(Difference(s, t)) {
      forall i | 0 <= i < |s|
        ensures s[i] == t[i]
      {
        assert !Difference(s, t)[i];
      }
    }
  }

  /** Whether two messages of one length have the same CRC depends on the bits they differ in alone. */
  lemma SameCrcIff(a: seq<uint8>, b: seq<uint8>)
    requires |a| == |b|
    ensures Crc(a) == Crc(b) <==> FeedBits(0, Difference(Flatten(a, 8), Flatten(b, 8))) == 0
    ensures AllZero(Difference(Flatten(a, 8), Flatten(b, 8))) <==> a == b
  {
    hide BitXor, FeedBits, Flatten;
    var s, t := Flatten(a, 8), Flatten(b, 8);
    FeedIsBits(0xFFFF_FFFF, a);
    FeedIsBits(0xFFFF_FFFF, b);
    FeedBitsLinear(0xFFFF_FFFF, 0xFFFF_FFFF, s, t);
    XorSelf(0xFFFF_FFFF);
    XorZero(FeedBits(0xFFFF_FFFF, s), FeedBits(0xFFFF_FFFF, t));
    NoDifference(s, t);
    if s == t {
      Pow2Eight();
      FlattenPrefix(a, b, 8);
    }
  }

  lemma ThreeParts(d: seq<bool>, lo: nat, hi: nat)
    requires lo <= hi <= |d|
    ensures FeedBits(0, d) == FeedBits(FeedBits(FeedBits(0, d[..lo]), d[lo..hi]), d[hi..])
  {
    hide FeedBits;
    FeedBitsAppend(0, d[..lo], d[lo..hi]);
    FeedBitsAppend(0, d[..hi], d[hi..]);
    assert d[..lo] + d[lo..hi] == d[..hi] && d[..hi] + d[hi..] == d;
  }

  /** Only the bits inside a window matter if all others are zero. */
  lemma WindowOnly(d: seq<bool>, lo: nat, hi: nat)
    requires lo <= hi <= |d|
    requires forall i :: 0 <= i < |d| && !(lo <= i < hi) ==> !d[i]
    ensures FeedBits(0, d) == 0 <==> FeedBits(0, d[lo..hi]) == 0
    ensures AllZero(d) <==> AllZero(d[lo..hi])
  {
    hide FeedBits;
    assert AllZero(d[..lo]) && AllZero(d[hi..]);
    if AllZero(d[lo..hi]) {
      forall i | 0 <= i < |d|
        ensures !d[i]
      {
        assert lo <= i < hi ==> d[i] == d[lo..hi][i - lo];
      }
    }
    ThreeParts(d, lo, hi);
    ZerosKeep(0, d[..lo]);
    ZerosKeep(FeedBits(0, d[lo..hi]), d[hi..]);
  }

  predicate DifferOnlyIn(a: seq<uint8>, b: seq<uint8>, k: nat, width: nat)
    requires |a| == |b|
  {
    var s, t := Flatten(a, 8), Flatten(b, 8);
    forall i :: 0 <= i < |s| && !(k <= i < k + width) ==> s[i] == t[i]
  }

  lemma ShortWindow(s: seq<bool>)
    requires |s| <= 32
    ensures FeedBits(0, s) == 0 <==> AllZero(s)
  {
    if AllZero(s) {
      ZerosKeep(0, s);
    } else {
      ShortBurstShows(s);
    }
  }

  /** Two different messages of one length whose bits differ only inside a window of 32 consecutive bits
      never have the same CRC. Four consecutive bytes are such a window. */
  lemma BurstDetected(a: seq<uint8>, b: seq<uint8>, k: nat)
    requires |a| == |b| && a != b && DifferOnlyIn(a, b, k, 32)
    ensures Crc(a) != Crc(b)
  {
    hide FeedBits, Flatten, Crc;
    var d := Difference(Flatten(a, 8), Flatten(b, 8));
    var lo := if k <= |d| then k else |d|;
    var hi := if k + 32 <= |d| then k + 32 else |d|;
    SameCrcIff(a, b);
    WindowOnly(d, lo, hi);
    ShortWindow(d[lo..hi]);
  }

  // ---------- One bit more ----------

  /** The generator with its leading coefficient. */
  function FullGenerator(): (g: seq<bool>)
    ensures |g| == 33
  {
    [true] + Generator()
  }

  lemma FirstOne()
    ensures BitIn(0, true) == POLY && BitIn(0, false) == 0
  {
    assert BitXor(0, 1) == 1;
    assert BitXor(0, POLY) == POLY;
  }

  lemma FeedFirst(crc: uint32, w: seq<bool>)
    requires w != []
    ensures FeedBits(crc, w) == FeedBits(BitIn(crc, w[0]), w[1..])
  {}

  /** Of all differences 33 bits wide exactly the generator leaves no trace. */
  lemma WideWindow(w: seq<bool>)
    requires |w| == 33
    ensures FeedBits(0, w) == 0 <==> AllZero(w) || w == FullGenerator()
  {
    hide FeedBits, BitIn, BitXor, Bits, Steps;
    FirstOne();
    FeedFirst(0, w);
    var rest := w[1..];
    assert w == [w[0]] + rest;
    if w[0] {
      var v := Value(rest);
      Pow2Word();
      WordXor(POLY, v);
      WordIsBits(POLY, v, 32);
      StepsZero(BitXor(POLY, v), 32);
      XorZero(POLY, v);
      if w == FullGenerator() {
        assert rest == FullGenerator()[1..] == Bits(POLY, 32);
        BitsInjective(v, POLY, 32);
      }
    } else {
      ShortWindow(rest);
      if AllZero(rest) {
        assert forall i :: 0 < i < 33 ==> w[i] == rest[i - 1];
      }
    }
  }

  /** Two messages of one length whose bits differ only inside a window of 33 consecutive bits have the same
      CRC if and only if they are equal or their difference in the window is the generator. */
  lemma WideBurstMissedIff(a: seq<uint8>, b: seq<uint8>, k: nat)
    requires |a| == |b| && DifferOnlyIn(a, b, k, 33)
    ensures var d := Difference(Flatten(a, 8), Flatten(b, 8));
            Crc(a) == Crc(b) <==> a == b || (k + 33 <= |d| && d[k..k + 33] == FullGenerator())
  {
    hide FeedBits, Flatten, Crc, Generator, FullGenerator;
    var d := Difference(Flatten(a, 8), Flatten(b, 8));
    var lo := if k <= |d| then k else |d|;
    var hi := if k + 33 <= |d| then k + 33 else |d|;
    SameCrcIff(a, b);
    WindowOnly(d, lo, hi);
    if k + 33 <= |d| {
      WideWindow(d[lo..hi]);
    } else {
      ShortWindow(d[lo..hi]);
    }
  }

  /** So such messages exist: a difference equal to the generator leaves no trace, wherever it is. */
  lemma GeneratorIsInvisible(crc: uint32, s: seq<bool>, t: seq<bool>, before: seq<bool>, after: seq<bool>)
    requires |s| == |t| && AllZero(before) && AllZero(after)
    requires Difference(s, t) == before + FullGenerator() + after
    ensures FeedBits(crc, s) == FeedBits(crc, t)
  {
    hide BitXor, FeedBits, Generator, FullGenerator;
    var d, lo := Difference(s, t), |before|;
    assert d[lo..lo + 33] == FullGenerator();
    XorSelf(crc);
    FeedBitsLinear(crc, crc, s, t);
    WindowOnly(d, lo, lo + 33);
    WideWindow(FullGenerator());
    XorZero(FeedBits(crc, s), FeedBits(crc, t));
  }

  /** The generator, lowest bit first, in five bytes. */
  const GENERATOR_BYTES: seq<uint8> := [0x41, 0x06, 0x71, 0xDB, 0x01]

  const FIVE_ZEROS: seq<uint8> := [0, 0, 0, 0, 0]

  lemma FiveBytes(b0: uint8, b1: uint8, b2: uint8, b3: uint8, b4: uint8)
    ensures Flatten([b0, b1, b2, b3, b4], 8)
            == Bits(b0 + 0x100 * b1 + 0x1_0000 * b2 + 0x100_0000 * b3 + 0x1_0000_0000 * b4, 40)
  {
    hide Bits, Flatten, Pow2;
    FlattenEmpty();
    Pow2Eight();
    Pow2Word();
    Pow2Add(8, 8);
    Pow2Add(16, 8);
    FlattenBack([], b0, 8);
    FlattenBack([b0], b1, 8);
    FlattenBack([b0, b1], b2, 8);
    FlattenBack([b0, b1, b2], b3, 8);
    FlattenBack([b0, b1, b2, b3], b4, 8);
    assert [] + [b0] == [b0] && [b0] + [b1] == [b0, b1] && [b0, b1] + [b2] == [b0, b1, b2];
    assert [b0, b1, b2] + [b3] == [b0, b1, b2, b3] && [b0, b1, b2, b3] + [b4] == [b0, b1, b2, b3, b4];
    var v2 := b0 + 0x100 * b1;
    var v3 := v2 + 0x1_0000 * b2;
    var v4 := v3 + 0x100_0000 * b3;
    BitsAppend(b0, b1, 8, 8);
    BitsAppend(v2, b2, 16, 8);
    BitsAppend(v3, b3, 24, 8);
    BitsAppend(v4, b4, 32, 8);
  }

  lemma GeneratorInBytes()
    ensures Flatten(GENERATOR_BYTES, 8) == FullGenerator() + Bits(0, 7)
    ensures AllZero(Flatten(FIVE_ZEROS, 8)) && AllZero(Bits(0, 7))
  {
    hide Bits, Flatten;
    FiveBytes(0x41, 0x06, 0x71, 0xDB, 0x01);
    FiveBytes(0, 0, 0, 0, 0);
    BitsOfZero(40);
    BitsOfZero(7);
    Pow2Word();
    assert Pow2(1) == 2 && Pow2(33) == 2 * Pow2(32);
    BitsAppend(1, POLY, 1, 32);
    BitsAppend(1 + 2 * POLY, 0, 33, 7);
    LowestBit(1, 1);
    assert Bits(1, 1) == [true];
  }

  lemma {:induction false} FeedAppend(crc: uint32, a: seq<uint8>, b: seq<uint8>)
    ensures Feed(crc, a + b) == Feed(Feed(crc, a), b)
  {
    hide ByteStep;
    if b == [] {
      assert a + b == a;
    } else {
      var n := |b| - 1;
      FeedAppend(crc, a, b[..n]);
      assert (a + b)[..|a + b| - 1] == a + b[..n];
    }
  }

  /** On bytes: putting the generator in the place of five zeros, in any message, is never seen. */
  lemma FiveBytesMissed(before: seq<uint8>, after: seq<uint8>)
    ensures Crc(before + FIVE_ZEROS + after) == Crc(before + GENERATOR_BYTES + after)
  {
    hide Feed, FeedBits, Flatten, Bits, FullGenerator;
    var crc: uint32 := Feed(0xFFFF_FFFF, before);
    var s, t := Flatten(FIVE_ZEROS, 8), Flatten(GENERATOR_BYTES, 8);
    GeneratorInBytes();
    assert Difference(s, t) == [] + FullGenerator() + Bits(0, 7);
    GeneratorIsInvisible(crc, s, t, [], Bits(0, 7));
    FeedIsBits(crc, FIVE_ZEROS);
    FeedIsBits(crc, GENERATOR_BYTES);
    FeedAppend(0xFFFF_FFFF, before, FIVE_ZEROS);
    FeedAppend(0xFFFF_FFFF, before, GENERATOR_BYTES);
    FeedAppend(0xFFFF_FFFF, before + FIVE_ZEROS, after);
    FeedAppend(0xFFFF_FFFF, before + GENERATOR_BYTES, after);
  }
}
